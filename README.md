# OpenHouse-QR, modelled in Dafny

OpenHouse-QR runs the check-in desk of an open-house event. Visitors carry a
QR code that names their uuid. A booth scanner (a Raspberry Pi with a
keyboard-wedge reader) or a staff phone reads the code, and a Node back end
records one check-in per visitor and booth. The event also runs "QR-Pac", a
browser minigame. Its board is the QR symbol of some text, with one food node
per dark module. The player eats nodes while ghosts repaint them, and the
board is scanned again and again: once the symbol no longer decodes to the
original text, the round is won. High scores go to a small score server and are shown in a
leaderboard.

This project models the parts of the system that decide things:

- **The game engine** (`public/game/game.js`, `public/game/qr.js`):
  - modules `GameConfig`, `Draws`, `GameRules`, `GameBoard`, `GameEngine`,
    `QrVersion`;
  - building the board, the controls and the movement, eating, the chain
    explosion of red nodes, the ghosts' paint search, the round timer and
    its states, and scanning the board back into an image.
- **The score server and leaderboard client** (`public/game/server.js`,
  `frontend/public/game/api.js`): modules `ScoreServer` and `ScoreClient`.
- **The check-in pages**:
  - `src/pages/QrScanPage.tsx`, module `QrScanPage`;
  - `src/pages/StaffScanPage.tsx`, module `StaffScanPage`;
  - the shared helpers of `src/utils/helpers.ts`, module `Helpers`.
- **The back end's mode switch, check-in table and banner configuration**
  (`backend/server.js`), module `CheckinBackend`.
- **The Pi scanner loop** (`raspberry/scanner/scanner.py`), module
  `PiScanner`.

Shared pieces:

- `Text` and `Split` model JavaScript's `trim`, `toLowerCase`, `includes` and
  `split`, and Python's `strip`.
- `Sorting` models a stable descending sort and `slice(0, n)`.
- `Wrappers` gives `Option`.

**Where the model keeps the source's form.** State that the source mutates is
held in classes whose methods carry `modifies` clauses:

- the game's `state` object (`GameEngine.Game`);
- the page state of the scan page (`QrScanPage.ScanPage`);
- the back end's globals and tables (`CheckinBackend.Backend`);
- the hosted users table (`ScoreServer.ScoreTable`).

The loops of the source are methods with loop invariants, proved against
specification functions. Pure helpers are functions, and the properties are
lemmas about them.

**What the model receives as inputs.** It has no I/O, clock, randomness or
network. These arrive as parameters instead:

- random draws;
- the QR encoder and decoder;
- `sqrt` and the drift directions;
- the current time;
- the server's replies;
- the parsed JSON fields;
- the mode file and the environment.

## Model

| member | source | states |
|---|---|---|
| `Draws.Roll` | public/game/game.js:188-192 | A draw taken from the supplied sequence lies in [0, 1), and is the supplied value whenever that is one. |
| `Draws.PickIndex` | public/game/game.js:190 | `Math.floor(roll * k)` is an index below k, and roll·k lies in [i, i+1). |
| `GameRules.Dist2` | public/game/game.js:316-325 | A squared distance is never negative. |
| `GameRules.TryMove` | public/game/game.js:271-280 | Leaving the left margin wraps to the right margin and vice versa, inside the margins x moves by dx, and y moves by dy inside the vertical margins. A y below the top margin becomes exactly 0.4 and one past the bottom margin exactly N−0.4, and the result is always in bounds. |
| `GameRules.DirIndex` | public/game/game.js:337-341 | The direction is one of 4 quadrants: up when -dy dominates, right when dx dominates strictly, down when dy dominates, left otherwise. |
| `GameRules.DirOpposite` | public/game/game.js:337-341 | Reversing a non-zero vector gives the opposite direction. |
| `GameRules.DirScale` | public/game/game.js:337-341 | The direction of a vector does not change when the vector is scaled by a positive factor. |
| `GameRules.ThreeEdgeMask` | public/game/game.js:205-210 | The mask has four entries, and exactly the banned direction is false. |
| `GameRules.MaskAllowsThree` | public/game/game.js:205-210 | A ghost's mask allows exactly three of the four directions. |
| `GameRules.JoyAxis` | public/game/game.js:776-780 | A joystick offset becomes an axis value in [-1, 1]: offset/32 inside ±32, saturated at ±1 outside. |
| `GameRules.KeyAxis` | public/game/game.js:251-268 | A key axis is -1, 0 or 1. |
| `GameRules.Normalised` | public/game/game.js:251-268 | A control vector of length 0 gives no motion. |
| `GameRules.NormalisedIsUnit` | public/game/game.js:251-268 | A non-zero control vector divided by its length has length 1. |
| `GameRules.Ended` | public/game/game.js:601-605 | `endPlay(win)` stops play and scanning, records whether it was a win, changes nothing else, and keeps the round invariant. |
| `GameRules.Damaged` | public/game/game.js:389-394 | Damage lowers hp (not below 0) and the score by the per-damage penalty (not below the floor). Play ends as a loss exactly when hp reaches 0. |
| `GameRules.BlastedIsAfterBlasts` | public/game/game.js:310-314 | k blasts applied one after another give the closed form of the penalty (15 hp and 7.5 points each, with floors). |
| `GameRules.BlastedPlaying` | public/game/game.js:310-314 | After k ≥ 1 blasts the round is still playing iff it was playing and hp − 15k > 0. |
| `GameRules.BlastedOk` | public/game/game.js:310-314 | Blasts keep the round invariant. |
| `GameRules.Scanned` | public/game/game.js:705-716 | A scan sets `isScannable` to its outcome. A failed decode during play ends the round as a win. Score, hp and time are untouched. |
| `GameRules.ScanWinStands` | public/game/game.js:705-716 | Once a failed decode has ended the round, later frames leave it unchanged. |
| `GameRules.TimerStep` | public/game/game.js:735-740 | While playing and not frozen the timer runs down by dt and the score decays by 1 point a second, not below the floor. At 0 the round ends with 0 seconds left, and it counts as a win exactly when the board was already unscannable. Hp, the time budget and the counters are kept. |
| `GameRules.TicksBeforeTimeout` | public/game/game.js:735-740 | With n·dt seconds left, the round is still playing after k < n frames, with (n−k)·dt left. |
| `GameRules.TicksTimeout` | public/game/game.js:735-740 | With n·dt seconds left, the n-th frame ends the round with 0 seconds left. The end is a win exactly when the board was already unscannable. |
| `GameRules.Continued` | public/game/game.js:750-766 | Continue after a loss adds the extra time and counts a continue. Continue after a win resumes with the timer frozen. Score and hp are kept. |
| `GameRules.ContinuedAfterWinIsFrozen` | public/game/game.js:750-766 | After continuing from a win, no number of frames changes the round. |
| `GameRules.ContinueAfterTimeout` | public/game/game.js:750-766 | Continuing after a timeout resumes play with the extra time on the clock. |
| `GameRules.Reset` | public/game/game.js:140-150 | The opening of `buildQR` zeroes score, continues and stun, restores full hp and clears the win flag, keeping the time fields and play flags. |
| `GameRules.BuiltRound` | public/game/game.js:218-223 | A built board waits, not playing and scannable, with the base time and full hp. |
| `GameRules.BuiltRoundWaits` | public/game/game.js:218-223 | Frames do not change a built round before play begins. |
| `GameRules.Begun` | public/game/game.js:575-582 | `beginPlay` starts play and scanning with the base time, unfrozen, and keeps score and hp. |
| `GameRules.BegunRoundLasts150Frames` | public/game/game.js:575-582 | At the maximum frame step a fresh round plays for exactly 150 frames (15 s at 0.1 s) and then ends with 0 seconds left. |
| `GameRules.Paused` | public/game/game.js:794-798 | The pause button flips `playing`, sets `scanning` to match, and changes nothing else. |
| `GameRules.PauseTwice` | public/game/game.js:794-798 | Pausing twice restores play, with scanning following play. |
| `GameBoard.CellsSound` | public/game/game.js:177-183 | Every node position listed is a dark module that comes before the current cell. |
| `GameBoard.CellsOrdered` | public/game/game.js:177-183 | The node positions are in strict row-major order. |
| `GameBoard.CellsComplete` | public/game/game.js:177-183 | Every dark module before the current cell is listed. |
| `GameBoard.CellsCount` | public/game/game.js:177-183 | There are as many nodes as dark modules. |
| `GameBoard.BuildFoods` | public/game/game.js:177-183 | The nested loops place exactly one alive white node per dark module, centred in it, in row-major order. |
| `GameBoard.YellowCount` | public/game/game.js:186 | At most a tenth of the nodes are yellow. |
| `GameBoard.RedCount` | public/game/game.js:187 | At most 7.5 % of the nodes are red. |
| `GameBoard.SpecialsFit` | public/game/game.js:186-187 | Yellows and reds together never outnumber the nodes. |
| `GameBoard.Range` | public/game/game.js:188 | The index list is 0..n-1. |
| `GameBoard.SwapDistinct` | public/game/game.js:190-191 | A swap keeps the indices free of repeats. |
| `GameBoard.SwapMultiset` | public/game/game.js:190-191 | A swap keeps the multiset of indices. |
| `GameBoard.Shuffle` | public/game/game.js:188-192 | The Fisher–Yates loop leaves a permutation of the array, still free of repeats. |
| `GameBoard.CountKindUpdate` | public/game/game.js:193-194 | Repainting one node moves the counts of its old and new kinds by one each. |
| `GameBoard.CountAllWhite` | public/game/game.js:177-183 | A fresh board is all white. |
| `GameBoard.PaintRun` | public/game/game.js:193-194 | One colouring loop paints exactly the shuffled positions in its range, changes only kinds, and moves the kind counts by the run length. |
| `GameBoard.PaintKinds` | public/game/game.js:193-194 | The first YellowCount shuffled nodes are yellow, the next RedCount red, the rest white, and the counts are exact. |
| `GameBoard.NewBoard` | public/game/game.js:177-194 | The board half of `buildQR` deals one alive node per dark module, with a repeat-free shuffle deciding exactly which nodes are yellow and red. |
| `GameBoard.AliveCells` | public/game/game.js:684-690 | The alive-cell set holds exactly the cells of alive nodes. |
| `GameBoard.Raster` | public/game/game.js:692-703 | The scanned image is square, of side (n+4)·3, and each pixel is black iff it lies in the 3×3 block of an alive cell. |
| `GameBoard.QuietZoneWhite` | public/game/game.js:692-703 | The two-module quiet zone is white. |
| `GameBoard.RasterBlock` | public/game/game.js:692-703 | Each pixel of module (r, c)'s block shows whether that module is alive. |
| `GameBoard.NodeCellOfCentre` | public/game/game.js:684-690 | A node at the centre of a cell is drawn in that cell. |
| `GameBoard.PlacedAliveIsDark` | public/game/game.js:684-690 | On a fresh board every alive cell is a dark module. |
| `GameBoard.PlacedDarkIsAlive` | public/game/game.js:684-690 | On a fresh board every dark module is an alive cell. |
| `GameBoard.PlacedImageIsSymbol` | public/game/game.js:680-703 | On a fresh board the scanned image is exactly the QR symbol inside its quiet zone. |
| `GameBoard.KillingOnlyWhitensImage` | public/game/game.js:680-703 | Killing nodes can only turn black pixels white. |
| `GameBoard.KillingOnlyWhitens` | public/game/game.js:684-690 | A cell alive after killing was alive before. |
| `GameEngine.AliveCountKill` | public/game/game.js:316-325 | Killing an alive node lowers the alive count by exactly one. |
| `GameEngine.KillOnlyTrans` | public/game/game.js:298-327 | "Only kills" composes. |
| `GameEngine.RepaintOnlyTrans` | public/game/game.js:378-385 | "Only repaints white alive nodes" composes. |
| `GameEngine.NearestUnique` | public/game/game.js:343-357 | The nearest eligible node (ties to the lowest index) is unique. |
| `GameEngine.PaintColor` | public/game/game.js:58 | The paint colour is red iff the draw is below one half, and never white. |
| `GameEngine.Approach` | public/game/game.js:366-376 | A ghost at its target (length ≤ the minimum step) stays put, and the move keeps it in bounds. |
| `GameEngine.TargetPos` | public/game/game.js:362-364 | A target has a position iff it indexes a node. |
| `GameEngine.GhostMove` | public/game/game.js:366-376 | A ghost's move keeps it inside the board's margins. |
| `GameEngine.ClearAroundRepaint` | public/game/game.js:378-385 | Repainting never brings an alive node into a cleared neighbourhood. |
| `GameEngine.KillThenRepaint` | public/game/game.js:329-335 | Eating then repainting is an evolution in which nodes stay in place, none are revived, and kinds change only from white. |
| `GameEngine.KeysDistinctSnoc` | public/game/game.js:302-306 | A centre with an unseen `toFixed(3)` key keeps the processed centres' keys distinct. |
| `GameEngine.ClearAroundStep` | public/game/game.js:316-325 | Killing keeps a neighbourhood clear, and a clear next node extends it. |
| `GameEngine.ClearedSnoc` | public/game/game.js:316-325 | After a blast, nothing alive lies within the radius of any processed centre. |
| `GameEngine.HitsOnPositive` | public/game/game.js:306-314 | A centre within the blast radius of the player makes the hit count positive. |
| `GameEngine.HitsOnConcat` | public/game/game.js:306-314 | The hits of two runs of centres add up. |
| `GameEngine.BitesInBlast` | public/game/game.js:286-306 | A node within eating reach lies within the blast radius of the player, so a red node eaten always hits. |
| `GameEngine.ClearedKill` | public/game/game.js:316-325 | Later kills keep the neighbourhoods of earlier centres clear. |
| `GameEngine.ClearedConcat` | public/game/game.js:316-325 | Two runs of cleared centres form one. |
| `GameEngine.ChainSkip` | public/game/game.js:302-304 | Skipping a centre whose key was seen keeps the chain's bookkeeping. |
| `GameEngine.ChainBlast` | public/game/game.js:302-326 | Blasting an unseen centre extends the processed centres by it, the queue by the red nodes it killed, and the red ledger by those nodes. |
| `GameEngine.ChainBoardBlast` | public/game/game.js:302-326 | A blast that clears around the head of the queue and only kills keeps the board half of the chain invariant: earlier centres stay clear and the ledger records every red node killed. |
| `GameEngine.ChainClosed` | public/game/game.js:298-327 | When the queue is empty, the first centre is the start, every red node killed has its key among the centres, and every later centre is such a node's position. |
| `GameEngine.RedPositions` | public/game/game.js:320-323 | The pushed positions are, in order, the centres of the killed red nodes. |
| `GameEngine.RedLedgerAppend` | public/game/game.js:316-325 | Every red node killed is recorded in the pushed list, across successive blasts. |
| `GameEngine.Bite` | public/game/game.js:282-296 | A bite kills a node only when it is alive and within reach, and changes nothing else. |
| `GameEngine.Bitten` | public/game/game.js:282-296 | Eating keeps the number of nodes. |
| `GameEngine.BittenAt` | public/game/game.js:282-296 | Node j after eating is node j bitten. |
| `GameEngine.BittenKillsAndClears` | public/game/game.js:282-296 | Eating only kills, leaves nothing alive within reach, and kills exactly the alive nodes within reach. |
| `GameEngine.BittenPrefix` | public/game/game.js:284-295 | The eating loop extends the bitten prefix by one node per step, and counts the bites by kind. |
| `GameEngine.EatFirstStep` | public/game/game.js:284-295 | One loop step records the first red node within reach, once. |
| `GameEngine.EatHealthStep` | public/game/game.js:284-295 | One loop step keeps hp at the start hp less 15 per hitting centre, with the loss flags when it reaches 0. |
| `GameEngine.EatQuietStep` | public/game/game.js:284-295 | Before any explosion, one loop step bites the node and feeds the round by its kind. |
| `GameEngine.EatLoopStep` | public/game/game.js:284-295 | One step of the eating loop, red or not, keeps the loop invariant. |
| `GameEngine.EatLoopDone` | public/game/game.js:282-296 | At the end of the loop nothing alive is in reach, the explosion happened iff a red node was in reach, hp fell by 15 per hitting centre, and without an explosion the board is `Bitten` and the score and stun follow the counts. |
| `GameEngine.PlayerMove` | public/game/game.js:332 | On a real board the player's move stays inside the margins. |
| `GameEngine.NewGhost` | public/game/game.js:212-216 | A new ghost starts with no target, a last paint up to one interval ago, and a three-edge mask from its draw. |
| `GameEngine.StartGhosts` | public/game/game.js:212-216 | There are three ghosts, 3.5 tiles in from three corners, all in bounds on a real QR size. |
| `GameEngine.TextOrDefault` | public/game/game.js:155 | The encoded text is the trimmed field, or "QR-Pac" when that is empty, and never empty. |
| `GameEngine.Fed` | public/game/game.js:286-293 | A white node scores 3 points, a yellow one stuns for 1.5 s, a red one is left to the explosion, and the round invariant is kept. |
| `GameEngine.Hit` | public/game/game.js:310-314 | A blast near the player costs 15 hp (not below 0) and the score penalty, and stuns for the blast stun from now, keeping the round invariant. |
| `GameEngine.Hits` | public/game/game.js:306-314 | k blasts in a row: none changes nothing, one or more leaves the player stunned from now, and the round invariant holds. |
| `GameEngine.HitsAfterBlasts` | public/game/game.js:306-314 | k blasts in a row give the closed form of the penalty (`AfterBlasts`). |
| `GameEngine.ReplayConcat` | public/game/game.js:282-327 | Replaying two runs of events in a row is replaying the second on the result of the first. |
| `GameEngine.BlastsAt` | public/game/game.js:306-314 | The blasts of one chain are k events, each a blast at the red node eaten. |
| `GameEngine.ReplayBlasts` | public/game/game.js:306-314 | Replaying the blasts of one chain gives `Hits`. |
| `GameEngine.BlastCountConcat` | public/game/game.js:306-314 | Blast counts of two runs of events add up. |
| `GameEngine.BlastCountBlasts` | public/game/game.js:306-314 | The blasts of one chain count k. |
| `GameEngine.NearSomeGrow` | public/game/game.js:316-325 | A node near some centre stays near one when more centres follow. |
| `GameEngine.KilledNearSnoc` | public/game/game.js:316-325 | A blast that kills only within its radius keeps every kill near some processed centre. |
| `GameEngine.ChainHitStep` | public/game/game.js:306-314 | One more blast keeps the round equal to `Hits` of the chain's start, with the hit count equal to the centres near the player. |
| `GameEngine.KeySetSnoc` | public/game/game.js:302-306 | Processing one more centre adds exactly its key to the remembered keys. |
| `GameEngine.ChainQueueStep` | public/game/game.js:302-326 | After the first blast, the head of the queue becomes a centre, the red nodes it kills join the queue in order, and every position already taken keeps its key remembered. |
| `GameEngine.QuietVisit` | public/game/game.js:284-292 | A visit to a node that is not a red node within reach bites it if within reach and feeds the round, with no centres and no hits. |
| `GameEngine.RedVisit` | public/game/game.js:284-293 | A visit to a red node within reach marks it eaten and then explodes the chain, which kills only near its centres and leaves the round `Hits` of the visit's start. |
| `GameEngine.VisitReplay` | public/game/game.js:284-295 | The events of one visit replay to the round the visit leaves, and count its blasts. |
| `GameEngine.VisitEventsOk` | public/game/game.js:284-295 | The events of visit i are about node i, agree with the board at the start of the loop, and only blasts repeat. |
| `GameEngine.VisitOrderStep` | public/game/game.js:284-295 | Appending the events of visit i keeps all events in visit order. |
| `GameEngine.EatEventsStep` | public/game/game.js:284-295 | A visit keeps the round equal to the replay of the events so far, in visit order. |
| `GameEngine.EatKillsStep` | public/game/game.js:284-295 | A visit keeps every node eaten outside every blast recorded, and every kill either eaten within reach or near a centre. |
| `GameEngine.EatVisitStep` | public/game/game.js:284-295 | A visit keeps all three parts of the loop invariant. |
| `GameEngine.TargetRuleUnique` | public/game/game.js:359-364 | A board and a ghost admit one target only. |
| `GameEngine.Game.constructor` | public/game/game.js:24-54 | The initial state: 33 modules, empty board, 5 s on the clock, full hp, not playing, scannable. |
| `GameEngine.Game.SetRound` | public/game/game.js:139-245 | The round fields become the given round. |
| `GameEngine.Game.EndPlay` | public/game/game.js:601-605 | The fields become `Ended` of the old round. |
| `GameEngine.Game.DamagePlayer` | public/game/game.js:389-394 | The fields become `Damaged` of the old round. |
| `GameEngine.Game.TimerBranch` | public/game/game.js:735-740 | The fields become `TimerStep` of the old round. |
| `GameEngine.Game.Continue` | public/game/game.js:750-766 | The fields become `Continued` of the old round, and the frame clock restarts. |
| `GameEngine.Game.BeginPlay` | public/game/game.js:575-582 | The fields become `Begun` of the old round. |
| `GameEngine.Game.TogglePause` | public/game/game.js:794-798 | The fields become `Paused` of the old round. |
| `GameEngine.Game.SetInput` | public/game/game.js:776-780 | The input vector is the two joystick axes, each in [-1, 1]. |
| `GameEngine.Game.StepControls` | public/game/game.js:251-268 | No motion while stunned. While playing, the velocity is the normalised key/joystick vector. Stopped play keeps the old velocity. |
| `GameEngine.Game.BlastAt` | public/game/game.js:316-325 | One blast kills exactly the alive nodes within the radius, only kills, and pushes the centre of every red node it kills. |
| `GameEngine.Game.BlastCentre` | public/game/game.js:306-325 | One chain step kills only nodes within the blast radius of c and clears that radius. The round becomes `Hit` of the old round (15 hp, the score penalty, a stun from now) iff the player is within the radius, and is unchanged otherwise. |
| `GameEngine.Game.ChainStep` | public/game/game.js:302-326 | One turn of the chain loop keeps the chain invariant: the board bookkeeping, every kill near a processed centre, and the round equal to `Hits` of the round at the start for the hits so far. It either kills a node or shortens the queue. |
| `GameEngine.Game.ExplodeChain` | public/game/game.js:298-327 | The first centre is the start and each later one is the position of a red node the chain killed. Every red node killed has its key among the centres, keys are distinct, nothing alive is left within the radius of any centre, and every node killed lies within the radius of some centre. The round is `Hits` of the old round, once per centre near the player. |
| `GameEngine.Game.EatAt` | public/game/game.js:284-295 | Afterwards node i is out of reach. The step explodes iff node i was a red node within reach. Without an explosion node i is bitten and the round fed by its kind. With one, the chain starts at node i, hits the player at least once and the round is `Hits` of the old round. Every other node killed lies near a centre (`Visit`). |
| `GameEngine.Game.Feed` | public/game/game.js:291-292 | The round becomes `Fed` of the old round by a white or yellow node. |
| `GameEngine.Game.EatRed` | public/game/game.js:293 | Eating a red node starts the chain at it, clears around every centre and kills only near one, hits the player at least once, and the round becomes `Hits` of the old round. |
| `GameEngine.Game.EatStep` | public/game/game.js:284-295 | One turn of the eating loop keeps the loop invariant and extends the event record: the round is the replay of the events so far, and the board's kills are accounted for (`EatEvents`, `EatKills`). |
| `GameEngine.Game.EatAll` | public/game/game.js:284-295 | The eating loop ends with the loop invariant over all nodes, the round equal to the replay of the events in visit order, and every kill accounted for. |
| `GameEngine.Game.EatFoods` | public/game/game.js:282-296 | Nothing changes when not playing. Otherwise nothing alive is left within reach. The chain starts iff a red node was in reach, at the first such node. hp falls by 15 per centre near the player, with the loss flags at 0. Without an explosion the board is exactly the bitten board and the score and stun follow the nodes eaten. In every case score, hp and stun are the replay of the eaten nodes and blasts in visit order, and every node killed was eaten within reach or lies near a centre (`EatenRound`). |
| `GameEngine.Game.FindNearestWhiteWithin` | public/game/game.js:343-357 | The search returns -1 iff no node is eligible, and otherwise the nearest eligible node. |
| `GameEngine.Game.ChooseTarget` | public/game/game.js:362-364 | A ghost keeps a still-valid target, or searches afresh, and the target is always -1 or an alive white node. |
| `GameEngine.Game.PaintStep` | public/game/game.js:376-385 | A ghost paints iff its target is within reach, its paint interval has passed and the draw allows. It then repaints that node red or yellow and drops the target. |
| `GameEngine.Game.StepGhosts` | public/game/game.js:359-387 | Ghosts only repaint alive white nodes, keep their masks, and stay in bounds. Ghost k takes the target `TargetRule` gives on the board the earlier ghosts left, moves by `GhostMove` towards it, and paints or not as `PaintRule` says (`GhostsStepped`). |
| `GameEngine.Game.Physics` | public/game/game.js:329-335 | Nothing changes when not playing. Otherwise the player moves by `TryMove`, the eating round is `EatenRound` (score, hp and stun the replay of what was eaten and blasted), the ghosts then take their turns on the board eating left (`GhostsStepped`) without touching the round, and nothing alive is left within reach. |
| `GameEngine.Game.MoveAndEat` | public/game/game.js:332-333 | During play the player moves by `TryMove`, eating only kills and leaves nothing alive within reach, and the round is the eating round (`EatenRound`). |
| `GameEngine.Game.FrameClock` | public/game/game.js:722-724 | The frame step is the time since the last frame in seconds (0 on the first), capped at 0.1 s, and the frame's timestamp is remembered. |
| `GameEngine.Game.Frame` | public/game/game.js:726-740 | Outside play nothing changes. In play the player moves by `TryMove` with the current velocity, the round before the timer is the eating round (`EatenRound`), the ghosts step as in `GhostsStepped`, nothing alive is left within reach, and the timer then applies `TimerStep`. |
| `GameEngine.Game.Tick` | public/game/game.js:720-744 | One frame: the step comes from the frame clock, capped at 0.1 s. A stunned player gets no velocity, otherwise the normalised control vector. Then the player moves, eats (`EatenRound`), the ghosts step (`GhostsStepped`) and the timer runs (`TimerStep`). |
| `GameEngine.Game.Advance` | public/game/game.js:726-740 | A frame after its clock: the controls as in `Tick`, then physics and the timer, with the same guarantees on eating (`EatenRound`) and on the ghosts (`GhostsStepped`). |
| `GameEngine.Game.ScanCurrentQR` | public/game/game.js:680-717 | The image is exactly the alive nodes in 3×3 blocks inside the quiet zone. The scan succeeds iff it decodes to the original text, and the round becomes `Scanned`. |
| `GameEngine.Game.LayBoard` | public/game/game.js:160-223 | A square symbol becomes a dealt board, with the player centred and three ghosts, in the built round state. |
| `GameEngine.Game.Restart` | public/game/game.js:140-150 | The round is `Reset`. |
| `GameEngine.Game.Record` | public/game/game.js:151-156 | The input stops, and the size hint and the text are stored. |
| `GameEngine.Game.Rebuild` | public/game/game.js:151-245 | A board is laid iff the encoder produces a symbol. Otherwise only the reset happened. |
| `GameEngine.Game.BuildQR` | public/game/game.js:139-245 | `buildQR` clamps the size field, defaults the text, and lays a board iff encoding succeeds. |
| `QrVersion.JsRound` | public/game/qr.js:7 | `Math.round` is within one half of its argument, rounding halves up. |
| `QrVersion.ClampModules` | public/game/game.js:153 | A parsed size is clamped to 21..57. A missing one stays missing. |
| `QrVersion.GuessVersion` | public/game/qr.js:5-9 | The version is automatic (0) without a hint. With a hint it is non-zero iff the hint lies in 19..178, and then its side 4V+17 is within 2 modules of the hint (above by at most 2, below by less than 2). |
| `QrVersion.GuessInvertsSize` | public/game/qr.js:7-8 | A hint of exactly 4V+17 modules selects version V. |
| `QrVersion.GuessNearHint` | public/game/qr.js:7-8 | Every clamped hint selects a version 1..10 whose side is within 2 modules of the hint. |
| `QrVersion.Create` | public/game/qr.js:4-19 | The guessed version at level M is tried first, then the automatic one. The result fails only if both do. |
| `QrVersion.CreateWithoutHint` | public/game/qr.js:10-17 | Without a hint, the result is the automatic encoding. |
| `Sorting.InsertPos` | frontend/public/game/api.js:40 | Stable insertion goes after every element whose key is at least as large. |
| `Sorting.InsertSorted` | frontend/public/game/api.js:40 | Insertion keeps a sequence sorted by descending key. |
| `Sorting.InsertMultiset` | frontend/public/game/api.js:40 | Insertion adds exactly the new element. |
| `Sorting.SortDesc` | frontend/public/game/api.js:40 | `sort((a, b) => b.score - a.score)` returns a permutation of its input in descending order. |
| `Sorting.SortDescSortedId` | src/pages/QrScanPage.tsx:127-131 | An already sorted list comes back unchanged: the sort is stable. |
| `Sorting.Take` | src/pages/QrScanPage.tsx:130 | `slice(0, n)` is the prefix of length min(|s|, n). |
| `Sorting.TakeSorted` | src/pages/QrScanPage.tsx:130 | A prefix of a sorted list is sorted. |
| `Sorting.TakeKeepsTop` | src/pages/QrScanPage.tsx:127-131 | On a list sorted by descending key, no element left out of the prefix has a larger key than an element kept. |
| `ScoreServer.KeepAllowed` | public/game/server.js:44-48 | The filter keeps only printable ASCII and Thai-and-above characters, and never lengthens. |
| `ScoreServer.NameSource` | public/game/server.js:42-43 | The text the filter reads is the trimmed name cut to its first min(length, 16) characters. |
| `ScoreServer.SanitizeName` | public/game/server.js:40-53 | The character loop computes `SanitizedName`. |
| `ScoreServer.KeepAllowedSubsequence` | public/game/server.js:44-48 | Filtering only deletes characters, keeping their order. |
| `ScoreServer.KeepAllowedFixed` | public/game/server.js:44-48 | A name is unchanged by the filter iff all its characters are allowed. |
| `ScoreServer.KeepAllowedCounts` | public/game/server.js:44-48 | The filter keeps every allowed character exactly as often as it occurs. |
| `ScoreServer.KeptIffAllowed` | public/game/server.js:44-53 | The filter gives a non-empty text iff the name has an allowed character, so "anon" is used exactly for names without one. |
| `ScoreServer.SanitizedName` | public/game/server.js:40-53 | The stored name is non-empty and at most 16 allowed characters. When the trimmed, cut name has an allowed character the stored name is exactly its allowed characters in order. Otherwise it is "anon". |
| `ScoreServer.Recorded` | public/game/server.js:77-88 | A new uuid is inserted with its row and score. A known uuid keeps its nickname. A post no higher than the stored score, with a null score counting as 0, leaves the table as it was; a higher one replaces the score and time. A null score stays null exactly when the post is not positive. The stored score afterwards is at least the posted one. Other users are untouched. |
| `ScoreServer.RecordedAll` | public/game/server.js:77-88 | After a series of posts every posted uuid has a row, no old row is lost, and a user who posted nothing keeps their row. |
| `ScoreServer.RecordedAllBest` | public/game/server.js:77-88 | After any series of posts a stored score (a null one counting as 0) never went down, is at least every score posted for the uuid, and is one of those or the old one. |
| `ScoreServer.ScoreTable.constructor` | public/game/server.js:18-20 | The table starts empty. |
| `ScoreServer.ScoreTable.PostScore` | public/game/server.js:58-95 | An unparsable score answers 400 and changes nothing. Otherwise the table becomes `Recorded` with the sanitised name and the time in seconds. |
| `ScoreServer.Display` | public/game/server.js:109-113 | The shown name starts with the nickname. It is exactly the nickname iff there is no uuid, and otherwise the nickname, " (", the uuid and ")". Score and time are kept. |
| `ScoreServer.DisplayAll` | public/game/server.js:109-113 | Every row is formatted, in order. |
| `ScoreServer.NonNull` | public/game/server.js:103 | The rows kept by the null filter are at most as many as the table's, and each is read from a row of the table that has a score. |
| `ScoreServer.NonNullCounts` | public/game/server.js:103 | Every row with a score is kept as often as it occurs, and no row with a null score is kept. |
| `ScoreServer.Leaderboard` | public/game/server.js:98-115 | `GET /api/scores` returns min(|rows with a score|, 50) entries in descending score order. |
| `ScoreServer.LeaderboardTop` | public/game/server.js:100-105 | The entries are the first rows of a ranking of the table's rows that have a score. The ranking holds each such row as often as the table does and no row with a null score, and no row left out scores more than a row shown. |
| `ScoreClient.EscapeChar` | frontend/public/game/api.js:75-85 | Each of `&<>"'` becomes an entity and every other character stands for itself. |
| `ScoreClient.Escape` | frontend/public/game/api.js:75-85 | Escaping never shortens, and decoding the entities recovers the text, so different names never render the same. |
| `ScoreClient.Unescape` | frontend/public/game/api.js:75-85 | Decoding the five entities never lengthens the text. |
| `ScoreClient.EscapeHtml` | frontend/public/game/api.js:75-85 | A missing name escapes to "". The result holds no raw `<`, `>`, `"` or `'`, and decoding its entities gives back the name. |
| `ScoreClient.UnescapeStep` | frontend/public/game/api.js:75-85 | One escaped character decodes back to itself, whatever follows. |
| `ScoreClient.EscapeNoRaw` | frontend/public/game/api.js:75-85 | The escaped text holds no raw `<`, `>`, `"` or `'`. |
| `ScoreClient.EscapeLength` | frontend/public/game/api.js:75-85 | Each special character adds three or more characters to the escaped text. |
| `ScoreClient.EscapeFixed` | frontend/public/game/api.js:75-85 | Escaping leaves a name unchanged iff it holds no special character. |
| `ScoreClient.LoadScores` | frontend/public/game/api.js:34-47 | A failed load gives no rows. A successful one gives the payload's rows, permuted into descending score order. |
| `ScoreClient.ItemsFrom` | frontend/public/game/api.js:96-104 | Item i shows rank first+i+1, the escaped name and the score. |
| `ScoreClient.RenderScores` | frontend/public/game/api.js:88-104 | No rows show the empty marker, and only then. Otherwise item i has rank i+1 and row i's score, and its name holds no raw markup and decodes to row i's name. |
| `ScoreClient.RenderedBoard` | frontend/public/game/api.js:34-104 | A load followed by a render shows the empty marker iff there are no rows. Otherwise the items are numbered 1, 2, … in descending score order, no name holds raw markup, and each decodes to its row's name. |
| `Text.SkipForward` | raspberry/scanner/scanner.py:90 | The scan stops at the first character outside the class. |
| `Text.TrimBy` | src/pages/StaffScanPage.tsx:57 | Trimming gives a part of the text no longer than it, with no white space at either end, and gives the empty text iff the text is all white space. |
| `Text.Trim` | src/pages/StaffScanPage.tsx:57 | JavaScript's `trim` has the same properties for its white-space class. |
| `Text.Strip` | raspberry/scanner/scanner.py:85 | Python's `strip` has the same properties for its white-space class. |
| `Text.TrimBounds` | src/pages/StaffScanPage.tsx:57 | The trimmed part is bounded by white space on both sides and has none at its ends. |
| `Text.CutAtEndsUnique` | src/pages/StaffScanPage.tsx:57 | There is only one way to cut white space off both ends of a text down to a part without white space at its ends: trimming is determined by the text. |
| `Text.TrimByIdempotent` | src/pages/StaffScanPage.tsx:57 | Trimming twice equals trimming once. |
| `Text.TrimByNoEnds` | backend/server.js:707 | A text without white space at its ends is its own trim. |
| `Text.Lower` | src/utils/helpers.ts:2 | Lower-casing maps each character by itself and keeps the length. |
| `Text.LowerIdempotent` | src/utils/helpers.ts:2 | Lower-casing twice equals lower-casing once. |
| `Split.SplitOn` | backend/server.js:706 | `split` always returns at least one piece. |
| `Split.SplitPiecesFree` | backend/server.js:706 | No piece holds the separator. |
| `Split.JoinWith` | backend/server.js:706 | The joined text starts with the first piece, and when no piece holds the separator it holds one separator per gap between pieces. |
| `Split.JoinSplit` | backend/server.js:704-709 | Splitting undoes joining when no piece holds the separator. |
| `Split.SplitJoin` | backend/server.js:704-709 | Joining the pieces gives back the text. |
| `PiScanner.FirstMatch` | raspberry/scanner/scanner.py:90 | `re.search` finds the leftmost position where "/uuid/" is followed by an id character, or reports none. |
| `PiScanner.ExtractUuid` | raspberry/scanner/scanner.py:90-94 | Without a match the uuid is the whole line. Otherwise it is the maximal run of id characters right after the leftmost match. |
| `PiScanner.PublishQr` | raspberry/scanner/scanner.py:83-103 | A blank line publishes nothing. A published payload carries booth 1 and a uuid of at least 4 characters, either the whole stripped line or an id run following "/uuid/". |
| `PiScanner.Sent` | raspberry/scanner/scanner.py:83-103 | One scanned line publishes at most one payload, and only a publishable one. |
| `PiScanner.SentWhich` | raspberry/scanner/scanner.py:83-103 | A line publishes nothing iff it is blank or its uuid has fewer than 4 characters. Otherwise it publishes exactly the payload of its uuid for booth 1. |
| `PiScanner.StripAll` | raspberry/scanner/scanner.py:127 | Item j is input line j, stripped. |
| `PiScanner.Accepted` | raspberry/scanner/scanner.py:127-134 | The loop accepts at most one stripped line per input line. |
| `PiScanner.AcceptedLines` | raspberry/scanner/scanner.py:127-134 | Each accepted line is a non-blank stripped input line and differs from the line accepted before it (or the remembered one). |
| `PiScanner.AcceptedCovers` | raspberry/scanner/scanner.py:127-134 | Every non-blank input line is accepted or repeats the remembered line. |
| `PiScanner.PublishAll` | raspberry/scanner/scanner.py:83-103 | Publishing a list of lines gives at most one payload per line, all publishable. |
| `PiScanner.RunPublishesAccepted` | raspberry/scanner/scanner.py:121-137 | The loop publishes exactly what `publish_qr` gives for each accepted line, in order. |
| `PiScanner.ScanLoop` | raspberry/scanner/scanner.py:121-137 | The loop publishes exactly `Run` of the scanned lines. |
| `PiScanner.Run` | raspberry/scanner/scanner.py:121-137 | The loop publishes at most one payload per line, each with booth 1 and a uuid of at least 4 characters. |
| `PiScanner.RunRepeat` | raspberry/scanner/scanner.py:132-135 | A line scanned twice in a row is published once. |
| `PiScanner.RunBlankBetween` | raspberry/scanner/scanner.py:129-135 | A blank line between two equal scans does not reset the repeat check. |
| `PiScanner.RunRemembersLine` | raspberry/scanner/scanner.py:132-137 | The repeat check compares lines, not uuids: two different lines are both passed on. |
| `QrScanPage.FindFrom` | src/pages/QrScanPage.tsx:87-88 | The search finds the leftmost occurrence at or after i, or reports none. |
| `QrScanPage.LastPieceStart` | src/pages/QrScanPage.tsx:88 | The last piece of `split("/uuid/")` starts right after an occurrence of the marker (or at i) and holds no marker. |
| `QrScanPage.ContainsFind` | src/pages/QrScanPage.tsx:87 | `includes` holds iff the search finds an occurrence. |
| `QrScanPage.ExtractUuid` | src/pages/QrScanPage.tsx:84-90 | An object gives its uuid field, text starting with "{" the parsed JSON's uuid, and any other text a suffix of itself. |
| `QrScanPage.ExtractUuidText` | src/pages/QrScanPage.tsx:87-89 | Text without the marker is the uuid itself. |
| `QrScanPage.ExtractUuidMarker` | src/pages/QrScanPage.tsx:87-88 | With the marker, the uuid is the suffix after an occurrence of it, and holds no marker. |
| `QrScanPage.NewEntry` | src/pages/QrScanPage.tsx:117-124 | The entry takes the user's nickname, then the reply's nickname, then "ไม่ระบุชื่อ". It takes the booth title or "Booth n", and is highlighted. |
| `QrScanPage.Added` | src/pages/QrScanPage.tsx:127-131 | The list after a check-in has min(n+1, 100) entries, newest first, all from the new entry and the old list. |
| `QrScanPage.AddedNewest` | src/pages/QrScanPage.tsx:127-131 | On a sorted list and a newest entry, adding puts it on top and keeps the first 100. |
| `QrScanPage.AddedKeepsNewest` | src/pages/QrScanPage.tsx:127-131 | No entry dropped by the cut at 100 is newer than an entry kept. |
| `QrScanPage.Latest` | src/pages/QrScanPage.tsx:183-185 | The panel shows min(n, 5) entries, newest first, all from the list. |
| `QrScanPage.LatestOfSorted` | src/pages/QrScanPage.tsx:183-185 | On a list already newest first, the panel shows its first five. |
| `QrScanPage.Format` | src/pages/QrScanPage.tsx:49-55 | A loaded row keeps its uuid and time, is not highlighted, and always has a nickname: the row's when it has one, "ไม่ระบุชื่อ" when it has none. It is titled iff the booth has a title, and otherwise named by its id. A row without a source counts as a camera scan. |
| `QrScanPage.FormatMatchesNewEntry` | src/pages/QrScanPage.tsx:117-124 | A row loaded back for a fresh check-in formats to the entry added for it, less the highlight. |
| `QrScanPage.FormatAll` | src/pages/QrScanPage.tsx:49-55 | Every row is formatted, in order. |
| `QrScanPage.Unhighlighted` | src/pages/QrScanPage.tsx:134-137 | Every entry loses its highlight and nothing else changes. |
| `QrScanPage.UnhighlightedSorted` | src/pages/QrScanPage.tsx:134-137 | Removing highlights keeps the order. |
| `QrScanPage.ScanPage.constructor` | src/pages/QrScanPage.tsx:24-27 | No booth selected, no last scan, no check-ins. |
| `QrScanPage.ScanPage.SelectBooth` | src/pages/QrScanPage.tsx:24 | Only the selected booth changes. |
| `QrScanPage.ScanPage.HandleCheckin` | src/pages/QrScanPage.tsx:72-173 | A request is posted iff there is a booth, the uuid is non-empty and it differs from the last scan. The MQTT route sees the booth and last scan of the first render (none). Only a posted request sets the last scan. The list grows only on a successful reply, by `Added` of the new entry. |
| `QrScanPage.ScanPage.ClearLastScan` | src/pages/QrScanPage.tsx:101 | The last scan is forgotten. |
| `QrScanPage.ScanPage.ClearHighlights` | src/pages/QrScanPage.tsx:134-137 | The list loses its highlights and stays sorted. |
| `QrScanPage.ScanPage.LoadCheckins` | src/pages/QrScanPage.tsx:45-65 | A failed load keeps the list. A successful one replaces it by the formatted rows, newest first. |
| `StaffScanPage.InvalidScan` | src/pages/StaffScanPage.tsx:57-61 | Text without '@' only warns, quoting at most 32 characters of the trimmed text. |
| `StaffScanPage.HandleDecoded` | src/pages/StaffScanPage.tsx:56-67 | The callback runs iff the trimmed text has '@' and a booth other than 0 is selected. Without a call the status is a warning, and an address without a booth reports the missing booth. |
| `StaffScanPage.LowerKeepsSpace` | src/pages/StaffScanPage.tsx:57-66 | Lower-casing never creates or removes white space. |
| `StaffScanPage.CallNormalised` | src/pages/StaffScanPage.tsx:66-67 | The callback gets the booth and an address with '@', no capitals and no white space at its ends, which normalising again leaves unchanged. The status is its answer or the success message. |
| `Helpers.MatchesEmailShape` | src/utils/helpers.ts:2 | The matcher `MatchesEmail` accepts exactly texts of the shape local@host.tld, with no white space and one '@'. |
| `Helpers.LowerKeepsClasses` | src/utils/helpers.ts:2 | Lower-casing keeps the character classes the pattern tests. |
| `Helpers.EmailShapeAtLower` | src/utils/helpers.ts:2 | Lower-casing keeps the shape at given positions. |
| `Helpers.EmailShapeLower` | src/utils/helpers.ts:2 | Lower-casing keeps the shape. |
| `Helpers.IsValidEmail` | src/utils/helpers.ts:1-3 | `isValidEmail` holds iff the text has the shape local@host.tld, ignoring case. |
| `Helpers.IsValidEmailShape` | src/utils/helpers.ts:1-3 | Validity ignores ASCII case, and a valid address has exactly one '@'. |
| `Helpers.StatusColor` | src/utils/helpers.ts:5-10 | Rose iff the lower-cased status is "full" or "เต็ม". Amber iff it is "filling fast" or "ใกล้เต็ม". |
| `Helpers.StatusColorCases` | src/utils/helpers.ts:5-10 | The colour is one of three classes, a missing status is emerald, and case does not matter. |
| `Helpers.ReplaceCharOccurs` | src/utils/helpers.ts:13 | After a global replace, a character occurs iff it occurred before or comes from the replacement. |
| `Helpers.EscapeAnglesSafe` | src/utils/helpers.ts:13 | The replaced text holds no '<' or '>'. |
| `Helpers.EscapeAnglesAbsent` | src/utils/helpers.ts:13 | A text without angle brackets is left unchanged by the replacements. |
| `Helpers.QrLabel` | src/utils/helpers.ts:13-20 | The label is the escaped text cut to its first 18 characters (or all of it when shorter), and holds no `<` or `>`. A text without angle brackets gives its own first 18 characters. |
| `Helpers.MakeQrSvg` | src/utils/helpers.ts:12-22 | The picture is the fixed head, then exactly the label `QrLabel` of the text, then the fixed tail. A text without angle brackets shows its own first 18 characters. |
| `Helpers.QrLabelSplitsEntity` | src/utils/helpers.ts:13-20 | As written, five '<' give the label "&lt;&lt;&lt;&lt;&l", a broken entity. |
| `Helpers.EscapeAnglesRun` | src/utils/helpers.ts:13 | Five '<' escape to five "&lt;". |
| `Helpers.QrLabelWhole` | src/utils/helpers.ts:13-20 | Cutting before escaping keeps every entity whole, leaves no '<' or '>', and the label decodes to the first 18 characters. |
| `Helpers.MakeQrSvgWhole` | src/utils/helpers.ts:12-22 | With that label, the picture keeps its fixed head and tail and the label region decodes to the first 18 characters. |
| `Helpers.EscapeEntitiesComplete` | frontend/public/game/api.js:75-85 | Every '&' that escaping writes begins one of the five entities. |
| `CheckinBackend.ModeName` | backend/server.js:30-32 | The mode is written as "local" or "cloud". |
| `CheckinBackend.ReadMode` | backend/server.js:21-29 | Cloud mode is read iff the file says "cloud", or, when the file is unreadable, the environment does. |
| `CheckinBackend.ReadModeWritten` | backend/server.js:21-32 | Reading back a written mode gives that mode. |
| `CheckinBackend.Count` | backend/server.js:308-311 | A booth's count is at most the number of check-ins, and it is 0 iff no check-in is at that booth. |
| `CheckinBackend.AtBoothBound` | backend/server.js:308-311 | A booth never has more check-ins than the table. |
| `CheckinBackend.CountEmpty` | backend/server.js:37 | An empty table counts 0 at every booth. |
| `CheckinBackend.CountInsert` | backend/server.js:310-311 | A new check-in adds one to its booth's count only. |
| `CheckinBackend.CountRemove` | backend/server.js:366-367 | Removing a check-in takes one from its booth's count only. |
| `CheckinBackend.CountPositive` | backend/server.js:367 | A booth with a check-in has a positive count, so the `attendees > 0` guard never blocks the decrement. |
| `CheckinBackend.TrimEach` | backend/server.js:707 | Every line is trimmed. |
| `CheckinBackend.TrimmedLines` | backend/server.js:705-707 | Line k of the result is line k of the text, split at newlines, trimmed. |
| `CheckinBackend.DropEmpty` | backend/server.js:708 | Only non-empty lines remain, all taken from the input. |
| `CheckinBackend.DropEmptyOrder` | backend/server.js:708 | The filter keeps the lines in their order (a subsequence of the input). |
| `CheckinBackend.DropEmptyCounts` | backend/server.js:708 | Every non-empty line is kept exactly as often as it occurs. |
| `CheckinBackend.DropEmptyKeeps` | backend/server.js:708 | A list without empty lines is kept whole. |
| `CheckinBackend.TrimmedClean` | backend/server.js:705-708 | A trimmed non-empty line holds no newline and no white space at its ends. |
| `CheckinBackend.LinesClean` | backend/server.js:705-708 | Splitting at newlines, trimming and dropping empty lines gives clean URLs. |
| `CheckinBackend.LineClean` | backend/server.js:705-708 | A trimmed line of the text that is not empty is a clean URL. |
| `CheckinBackend.ParseBanners` | backend/server.js:704-709 | The URLs are clean, appear in the order of the trimmed lines, and each non-empty trimmed line is kept as often as it occurs. |
| `CheckinBackend.TrimEachClean` | backend/server.js:707 | Trimming clean URLs changes nothing. |
| `CheckinBackend.CleanTrim` | backend/server.js:707 | A clean URL is its own trim. |
| `CheckinBackend.StoredBanners` | backend/server.js:704-721 | Banner text is stored as its clean URLs, in line order and with every non-empty trimmed line kept as often as it occurs. A list is stored as given, and nothing as the empty list. |
| `CheckinBackend.ParseBannersJoin` | backend/server.js:704-709 | Clean URLs joined by newlines parse back to themselves. |
| `CheckinBackend.NumberFrom` | backend/server.js:737-740 | Banner i gets id i+1 and its URL. |
| `CheckinBackend.Banners` | backend/server.js:732-746 | Without a config the banners are exactly the two placeholder URLs, with ids 1 and 2. Otherwise banner i has id i+1 and the i-th saved URL. |
| `CheckinBackend.Backend.constructor` | backend/server.js:37 | The mode is read from the file or the environment, and the tables start empty. |
| `CheckinBackend.Backend.SwitchMode` | backend/server.js:376-401 | An unknown mode answers 400 and changes nothing. A known one is adopted, written back only when it changed, and the tables are kept. |
| `CheckinBackend.Backend.PostCheckin` | backend/server.js:286-313 | The reply is 400 exactly when the uuid or booth is missing. It is the cloud branch exactly in cloud mode, a duplicate exactly when the local (uuid, booth) pair exists, and accepted exactly when the pair is new in local mode. The cloud branch leaves the local tables alone. A repeated (uuid, booth) is reported and changes nothing. Otherwise the check-in is added under the next id and its booth's count rises by one, keeping the tables in agreement. |
| `CheckinBackend.Backend.DeleteCheckinById` | backend/server.js:363-368 | An unknown id changes nothing. A known one is removed and its booth count falls by one, never below 0. |
| `CheckinBackend.Backend.DeleteAllCheckins` | backend/server.js:325-328 | All local check-ins are removed and every booth count becomes 0. |
| `CheckinBackend.Backend.SaveEventConfig` | backend/server.js:700-730 | Banner text is split into clean lines, and a list is stored as given. |
| `CheckinBackend.AcceptedCounts` | backend/server.js:308-312 | After an accepted check-in the pair is present, and the booth's count is one higher. |
| `CheckinBackend.InsertKeepsTables` | backend/server.js:296-312 | Inserting a new (uuid, booth) pair under the next id and raising its booth's counter keeps ids below the next id, pairs unique and every counter equal to its booth's check-ins. |

## Left out

- **Browser, network, MQTT, Supabase and SQLite I/O.** They are replaced by
  parameters or by maps and sequences in the model:
  - server replies (`Option<Reply>`);
  - the staff page's callback answer;
  - the users table (`map`);
  - the check-ins table (`map<int, Checkin>`);
  - the booths' attendee counts.

  Failed requests and thrown exceptions are a `None` reply.
- **The cloud branches of `backend/server.js`.** The model reports the cloud
  branch of `insertCheckin` as `CloudBranch` and leaves its effects out. The
  cloud branches of the deletions are no-ops on the local tables.
- **Other back-end behaviour.** Booth creation, users and every other
  endpoint of `backend/server.js` are not part of this model. The
  `/event-config` fields other than `bannerUrls` are left out, and so is
  SQLite's storage of `boothId` as a number or text.
- **`sanitizeName`:**
  - works on code points, where `length` and `slice` count UTF-16 units; the
    model cuts at 16 characters;
  - `String(name)` of a non-string and the `catch` branch are not modelled.

  `StaffScanPage`'s `slice(0, 32)` is modelled the same way.
- `Helpers.QrLabel` and `Helpers.MakeQrSvg` cut the label at 18 code points,
  where `slice(0, 18)` in `makeQrSvg` counts UTF-16 units. A label holding
  characters outside the Basic Multilingual Plane is cut differently.
- **Lower-casing.** `toLowerCase` is modelled on ASCII letters only.
  - `Helpers.IsValidEmailShape`, `StaffScanPage.CallNormalised` and
    `Helpers.StatusColorCases` state their case facts for ASCII capitals.
  - JavaScript also lower-cases other scripts.
- **Parsing.** `JSON.parse` of a QR text starting with "{" is the
  `jsonUuid` parameter of `QrScanPage.ExtractUuid`. `Number.parseInt` of the
  posted score is the `Option<int>` parameter of `PostScore`.
- **Times.** `QrScanPage` sorts on times shown with `toLocaleString` and
  parsed back. The model sorts on the integer time itself. The date line of
  `renderScores` is left out.
- **Sorting.** The score table's order among equal scores is the database's.
  The model ranks with a stable insertion sort. `Array.prototype.sort` sorts
  in place, and the model sorts functionally.
- **Timers.** `setTimeout` clears of the last scan and the highlights, and
  the reload after a check-in, are the separate methods `ClearLastScan`,
  `ClearHighlights` and `LoadCheckins`. Their timing is not modelled.
- **The game engine:**
  - Canvas drawing, the FX particles, the screen shake and `updateStats` are
    left out.
  - `bonus`, `scorePeak` and the score gauge are left out.
  - The scanned image is a `seq<seq<bool>>` instead of a canvas.
  - The QR encoder and decoder are parameters. A decoder that throws returns
    `None`.
  - `Math.sqrt`, `cos` and `sin` are parameters.
  - Random draws are supplied sequences, and a missing or out-of-range draw
    reads as 0.
  - `performance.now()` is one `nowMs` per frame.
  - Animation-frame timestamps are assumed not to decrease.
- **`GameEngine.Game.BuildQR`:**
  - `input`, `modules` and `originalText` are stored after the reset, in one
    step.
  - The half-initialised state of a failed encoding is modelled as "only the
    reset happened".
  - The size field is an `Option<int>` (None for a non-number).
- **`GameEngine.Game.Tick`** runs the controls step before physics and the
  timer, as `loop` does. Key events and `keys.clear` on blur are left out.
- **`GameEngine.Approach`** is proved to stay in bounds and to stop at the
  target. That it reduces the distance to the target is not proved.
- **`QrScanPage.ExtractUuid` for texts with the marker.** The uuid is the last
  piece of `split("/uuid/")`, which splits at non-overlapping occurrences from
  the left. For "/uuid/uuid/" that piece is "uuid/", not the empty text after
  the last occurrence of the marker. A text ending in the marker gives the
  empty piece, which is rejected as a missing uuid. The model follows the
  code.
- **`CheckinBackend.Banners`.** A saved empty list gives no banners, not the
  placeholders, because the stored text "[]" is truthy. The model follows the
  code.

## Findings

| source | as written | input that shows it | evidently intended | confidence | as-written member | corrected member |
|---|---|---|---|---|---|---|
| src/utils/helpers.ts:13-20 | `makeQrSvg` escapes `<` and `>` first and cuts the escaped text to 18 characters after, so an entity can be cut in half. `&` is not escaped at all. | the text "<<<<<" gives the label "&lt;&lt;&lt;&lt;&l" | cut the text to 18 characters first, then escape `&`, `<`, `>` (and quotes), so every entity stays whole | not executed | `Helpers.QrLabelSplitsEntity` | `Helpers.QrLabelWhole` |
