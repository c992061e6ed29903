# Chess-2 rules engine: elimination end condition and check detection

This project models two parts of the rules engine of a turn-based, chessboard-style game for two or more players.

- **The elimination end condition** (`EndConditions.EliminationEndCondition`). This object lives for the whole game. It keeps a table of how many pieces of each (team, kind) a team still has to lose, and a snapshot of the pieces that were alive at the last evaluation. Each evaluation collects the players' current pieces and works as follows:
  - If their number equals the snapshot's, it reports `Running` and changes nothing.
  - Otherwise it lowers the entry of every snapshot piece that has disappeared (matched by identity), then replaces the snapshot.
  - It then reports `Ended(loser)` for some team whose entries now sum to zero or less.
- **Check detection** (`Check.Exists`). Players are visited in order. For each one, the engine finds the team's first piece named `"K"`. It takes every piece of another team as an attacker. It answers true as soon as the king's location is among the raw end locations of some move of some attacker.

Pieces are values with an `id` that stands for object identity. Each piece carries its list of move rules. The geometry of a move (`Move.findAllEndLocations`) is not part of this model: it is a parameter `Geometry` that maps a move rule, its piece and the whole board to the raw end locations. A player whose team owns no `"K"` makes the source dereference null. The model keeps that error path: `Exists` returns `MissingKing(team)` for the first such player it reaches.

The table's keys are `(team, kind)` pairs, while the source uses strings `"team_kind"` that it later splits on `_`. Module `KeyEncoding` models the string form. For team names without an underscore it proves that the team is read back from its key (`KeyRoundTrip`) and that distinct pairs get distinct keys (`KeyInjective`), so the string-keyed table and the pair-keyed one hold the same entries. It also shows where they differ (see Findings).

The constructor does not count the pieces on the board. Every team that owns an initial piece gets, for each configured kind, as many pieces to lose as that kind occurs in the configured list.

## Model

| member | source | states |
|---|---|---|
| Pieces.AllPieces | src/ooga/model/Moves/Check.java:28-34 | a piece is collected exactly when some player owns it |
| Pieces.AllPiecesAppend | src/ooga/model/Moves/Check.java:28-34 | collecting distributes over concatenation of player lists; with `AllPiecesSingle` (one player's pieces are collected as they are) the result is each player's pieces, player by player, in player order |
| Pieces.AllPiecesLength | src/ooga/model/Moves/Check.java:28-34 | the collected list is as long as the players' piece counts added up |
| Check.FindKing | src/ooga/model/Moves/Check.java:64-71 | none exactly when no piece of the team is named "K"; otherwise the first such piece in list order |
| Check.AttackingPieces | src/ooga/model/Moves/Check.java:54-62 | a piece is an attacker exactly when it is on the board and not on the attacked team |
| Check.AttackingPiecesAppend | src/ooga/model/Moves/Check.java:54-62 | the filter commutes with concatenation, so attackers keep their original order |
| Check.AttackingPiecesSingle | src/ooga/model/Moves/Check.java:54-62 | a single piece is kept exactly when its team differs, so no teammate is ever an attacker |
| Check.AnyMoveReaches | src/ooga/model/Moves/Check.java:44-48 | true exactly when some move of the piece has the target among its raw end locations |
| Check.UnderAttack | src/ooga/model/Moves/Check.java:41-52 | true exactly when some attacker has some move whose end locations contain the king's location |
| Check.PlayerTestIsKingAttacked | src/ooga/model/Moves/Check.java:18-22 | the per-player test agrees with "the team's king stands on an end location of a move of another team's piece" |
| Check.ExistsFromWithKings | src/ooga/model/Moves/Check.java:15-26 | when every player has a king, the loop answers whether some player's king is attacked |
| Check.ExistsFromMissingKing | src/ooga/model/Moves/Check.java:15-26 | a failure names a player without a king, and every earlier player has a king that is not attacked |
| Check.ExistsFromReachesMissing | src/ooga/model/Moves/Check.java:15-26 | reaching a player without a king, every earlier king found and unattacked, makes the call fail naming that player's team |
| Check.ExistsFromNeverFalseWithoutKings | src/ooga/model/Moves/Check.java:15-26 | when some player has no king, the loop never answers false: it finds a check first or fails |
| Check.Exists | src/ooga/model/Moves/Check.java:15-26 | collects the pieces and runs the player loop `ExistsFrom`; false for no players; with every king present, true exactly when some king is attacked; with a king missing never false; fails only for a team without a king |
| Check.ExistsFromUsesRawMovesOnly | src/ooga/model/Moves/Check.java:41-52 | the answer depends only on the raw end locations of the board's own pieces' moves, so no legality filtering is involved |
| KeyEncoding.TeamOfKey | src/ooga/model/EndConditionHandler/EliminationEndCondition.java:104-106 | the team read from a key is the underscore-free prefix that stops at the key's first underscore |
| KeyEncoding.KeyRoundTrip | src/ooga/model/EndConditionHandler/EliminationEndCondition.java:104-106 | for a team without underscores, reading the team back from "team_kind" gives the team |
| KeyEncoding.KeyInjective | src/ooga/model/EndConditionHandler/EliminationEndCondition.java:44 | for teams without underscores, two (team, kind) pairs with the same key string are the same pair |
| KeyEncoding.UnderscoreTeamMisattributed | src/ooga/model/EndConditionHandler/EliminationEndCondition.java:104-106 | team "a_b" has its key credited to team "a", and its key equals the key of team "a" with kind "b_K" |
| EndConditions.Decrement | src/ooga/model/EndConditionHandler/EliminationEndCondition.java:114-120 | the key set is kept; only the missing piece's own key loses one, and an untracked key changes nothing |
| EndConditions.RecordLosses | src/ooga/model/EndConditionHandler/EliminationEndCondition.java:73-88 | logging the missing pieces never changes the table's key set |
| EndConditions.RecordLossesCount | src/ooga/model/EndConditionHandler/EliminationEndCondition.java:73-88 | each key loses exactly the number of snapshot positions holding a piece with that key that is no longer alive |
| EndConditions.RecordLossesNeverIncrease | src/ooga/model/EndConditionHandler/EliminationEndCondition.java:114-120 | counts never increase, and a key that no missing piece carries keeps its value |
| EndConditions.SumOverRemove | src/ooga/model/EndConditionHandler/EliminationEndCondition.java:102-112 | a team's sum does not depend on the order the keys are visited in |
| EndConditions.SumOverMonotone | src/ooga/model/EndConditionHandler/EliminationEndCondition.java:102-112 | lowering entries never raises a team's sum |
| EndConditions.DecrementTotal | src/ooga/model/EndConditionHandler/EliminationEndCondition.java:114-120 | logging one missing piece lowers its own team's total by one when its key is tracked, and leaves every other team's total alone |
| EndConditions.RecordLossesTeamTotal | src/ooga/model/EndConditionHandler/EliminationEndCondition.java:68-70 | a team's total drops by exactly the number of its tracked snapshot pieces that are no longer alive, so it reaches zero or below on the first evaluation where the number of its tracked pieces lost so far is at least its configured total |
| EndConditions.RecordLossesTotalNeverIncreases | src/ooga/model/EndConditionHandler/EliminationEndCondition.java:90-100 | logging losses never raises a team's total, so a team at zero or below stays there |
| EndConditions.Contains | src/ooga/model/EndConditionHandler/EliminationEndCondition.java:77-82 | the scan finds the piece exactly when some alive piece is the same piece |
| EndConditions.CollectTeams | src/ooga/model/EndConditionHandler/EliminationEndCondition.java:33-38 | the teams are exactly the teams of the initial pieces, and the snapshot is the initial list |
| EndConditions.AddPieceType | src/ooga/model/EndConditionHandler/EliminationEndCondition.java:43-47 | every team gains exactly one more of the kind, created at one if absent; all other keys keep their values |
| EndConditions.BuildTargets | src/ooga/model/EndConditionHandler/EliminationEndCondition.java:39-48 | keys are exactly (team, configured kind), each valued at the kind's number of occurrences in the list |
| EndConditions.EliminationEndCondition.constructor | src/ooga/model/EndConditionHandler/EliminationEndCondition.java:32-49 | snapshot = initial pieces; keys are exactly (team of an initial piece, configured kind); each count is the kind's number of occurrences in the configured list |
| EndConditions.EliminationEndCondition.IsSatisfied | src/ooga/model/EndConditionHandler/EliminationEndCondition.java:57-71 | same piece count: Running and nothing changes; otherwise losses are logged, the snapshot becomes the current pieces, and the result is Ended only for a team with total <= 0 and Running only when every team's total is > 0 |
| EndConditions.EliminationEndCondition.FindMissingPiece | src/ooga/model/EndConditionHandler/EliminationEndCondition.java:73-88 | the new table is the old one with every snapshot piece absent from the alive list logged |
| EndConditions.EliminationEndCondition.LogMissing | src/ooga/model/EndConditionHandler/EliminationEndCondition.java:114-120 | the missing piece's own key loses one if it is tracked; the key set and the invariant are kept |
| EndConditions.EliminationEndCondition.GetTargetPiecesRemaining | src/ooga/model/EndConditionHandler/EliminationEndCondition.java:102-112 | the teams owning a key, each mapped to the sum of the entries whose key belongs to that team |
| EndConditions.EliminationEndCondition.EliminatedAllTargets | src/ooga/model/EndConditionHandler/EliminationEndCondition.java:90-100 | Ended(t) only for a team t with total <= 0; Running only when every team's total is > 0 |
| EndConditions.EvaluateTwice | src/ooga/model/EndConditionHandler/EliminationEndCondition.java:65-69 | a second evaluation with the same players reports Running, even after an earlier Ended, and leaves a snapshot as large as the players' piece count |

## Left out

- Move geometry (`Move.findAllEndLocations`) is not part of this model. It is the parameter `Geometry`.
- `GameState` is not part of this model. `ENDED.getLoser(team)` is modelled as the value `Ended(team)` and `null` as `Running`; the `Draw` outcome is never produced by these files.
- The `PIECE_TYPE` lookup in the properties map is not modelled: the constructor takes the configured list of kinds directly.
- EndConditions.EliminationEndCondition.EliminatedAllTargets: it states "some team with total <= 0" rather than the one the hash map's iteration order would yield, because that order is unspecified.
- EndConditions.EliminationEndCondition: keys are (team, kind) pairs, so for team names holding an underscore the model keeps apart entries the source merges: EliminationEndCondition.java line 44 builds one string for ("a_b", "K") and ("a", "b_K"), and lines 105-106 credit it to team "a"; the model credits each entry to its own team.
- Piece identity is modelled as an equal `id`; the piece classes whose `equals` decides it are not part of this model.
- Splitting a key made only of underscores (empty team and a kind of underscores) makes the source's split return no field and fail; `KeyEncoding.TeamOfKey` returns the empty team there.
- The board, legal-move filtering, move execution, turns and the end-condition runner are not part of this model; their sources are not among the files modelled.
- Rendering, input handling, file and JSON loading are left out as I/O.

## Findings

| source | as written | input that shows it | evidently intended | confidence | as-written member | corrected member |
|---|---|---|---|---|---|---|
| src/ooga/model/EndConditionHandler/EliminationEndCondition.java:104-106 | a "team_kind" key is credited to the text before its first underscore | team "a_b", kind "K": the key "a_b_K" is counted for team "a", and it is the same key as team "a" with kind "b_K" | every entry is credited to the team it was built for | low, not executed | KeyEncoding.UnderscoreTeamMisattributed | EndConditions.EliminationEndCondition.GetTargetPiecesRemaining |
