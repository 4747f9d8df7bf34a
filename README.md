# Comb sort service core: sort, input parsing and the log store

This project is a Dafny model of the core of a small client/server comb-sort service:

- **Comb sort** (`Server/Modules/Sorting/CombSortModule.cs`). `Sort(int[])` clones its
  argument and sorts the clone in place with a shrinking gap. `Sort(int[], bool)`
  reverses that result with `Array.Reverse` when descending order is asked for.
- **Input parsing** (`Client/Modules/ValidationModule.cs`). `ValidateArray` splits user
  text on space, comma, semicolon, tab, LF and CR. It whitespace-trims each token,
  strips `[`/`]` from its ends and keeps the tokens that `int.TryParse` accepts.
- **The log store.** `LogDBManager` (`Server/Modules/Database/LogDBManager.cs`) and
  `LogManager` (`Server/Modules/Logging/LogManager.cs`) write rows into a `logs`
  table. They read rows back through a time, level and user filter, newest first.
  Int arrays are stored as comma-joined decimals.

Files:

- `IntText.dfy`: the .NET text operations both sides rely on:
  - `char.IsWhiteSpace`, `String.Trim`, `String.Split` (with and without
    `RemoveEmptyEntries`) and `String.Join`;
  - `Int32.ToString`, and `Int32.TryParse`/`Int32.Parse` as optional surrounding
    whitespace, an optional sign and ASCII digits within the int range.
- `CombSort.dfy`: `Sort` and `SortInDirection` as methods over arrays.
  - The outer `while` loop, the inner `for` pass (`CombPass`) and `Array.Reverse`
    (`ReverseInPlace`) work in place.
  - They are proved against the insertion sort `SortedCopy`. A multiset has only one
    sorted arrangement, so the comb sort's output equals `SortedCopy` of its input.
- `Validation.dfy`: `ValidateArray`, with its `foreach` loop in `CollectNumbers`, proved
  against the function `Parsed`. Round-trip lemmas cover decimal lists with one separator
  run repeated between the numbers, with or without surrounding brackets.
- `Logging.dfy`: the shared log vocabulary and the `LogManager` class:
  - log levels, entries, and table rows as raw column text;
  - the array codec;
  - the WHERE clause and ORDER BY of the select;
  - the `while (reader.Read())` loop (`ReadRows`).
- `LogDatabase.dfy`: the `LogDBManager` class. The connection is open or not, and the
  table is a sequence of rows.

Timestamps are `DateTime` ticks (100 ns units), and "now" is a parameter.

## Model

| member | source | states |
|---|---|---|
| IntText.Trim | Client/Modules/ValidationModule.cs:33-38 | neither end of the result is a trimmed character; a string whose ends are not in the set, or that has none of its characters, is returned unchanged |
| IntText.TrimStartDropsOnly | Client/Modules/ValidationModule.cs:33 | TrimStart removes only characters of the set |
| IntText.TrimEndDropsOnly | Client/Modules/ValidationModule.cs:33 | TrimEnd removes only characters of the set |
| IntText.TrimStartOfOnly | Client/Modules/ValidationModule.cs:33-35 | a string made only of trimmed characters trims to nothing |
| IntText.TrimEmptyIffOnly | Client/Modules/ValidationModule.cs:15 | Trim leaves nothing exactly when every character of the text is a trimmed character |
| IntText.Split | Client/Modules/ValidationModule.cs:21-22 | Split always yields at least one piece, no piece holds a separator, and every piece character comes from the input (SplitCuts fixes where it cuts) |
| IntText.SplitKeepsText | Client/Modules/ValidationModule.cs:21-22 | the pieces laid end to end are the input with its separator characters removed |
| IntText.SplitCount | Client/Modules/ValidationModule.cs:21-22 | there is one piece more than there are separator characters in the input |
| IntText.SplitUnify | Client/Modules/ValidationModule.cs:21-22 | every separator character cuts alike: splitting at the set is splitting at one of its characters after all separators are replaced by it |
| IntText.SplitCuts | Client/Modules/ValidationModule.cs:21-22 | the pieces joined by any one separator character give back the input with every separator replaced by that character, so each cut falls exactly at a separator |
| IntText.Join | Server/Modules/Database/LogDBManager.cs:124 | string.Join of one piece is that piece, and the joined text is never shorter than the pieces together |
| IntText.JoinEnds | Server/Modules/Logging/LogManager.cs:45-47 | the joined text starts with the first piece and ends with the last |
| IntText.NonEmpty | Client/Modules/ValidationModule.cs:21-22 | RemoveEmptyEntries keeps a piece exactly when it is non-empty: every kept piece is a non-empty piece of the split, and every non-empty piece of the split is kept |
| IntText.NonEmptyCounts | Client/Modules/ValidationModule.cs:21-22 | each non-empty piece is kept as often as it occurs and no empty piece is kept |
| IntText.NonEmptyAppend | Client/Modules/ValidationModule.cs:21-22 | the kept pieces keep their order: filtering a concatenation filters each part in turn |
| IntText.NonEmptyConcat | Client/Modules/ValidationModule.cs:21-22 | dropping empty pieces leaves the text they make up unchanged |
| IntText.SplitAfterPiece | Client/Modules/ValidationModule.cs:21-22 | splitting text that starts with a separator-free piece glues that piece onto the first piece of the rest |
| IntText.SplitAfterSeparators | Client/Modules/ValidationModule.cs:21-22 | leading separators do not change the non-empty pieces |
| IntText.SplitJoinNonEmpty | Client/Modules/ValidationModule.cs:21-22 | non-empty separator-free pieces joined by one separator run repeated between them split back (with RemoveEmptyEntries) into exactly those pieces |
| IntText.SplitJoinExact | Server/Modules/Database/LogDBManager.cs:206 | pieces free of ',' joined with "," split back at ',' into exactly those pieces (the text written at line 124) |
| IntText.SplitThenJoin | Server/Modules/Database/LogDBManager.cs:206 | splitting any text at one character and joining the pieces with it gives the text back |
| IntText.NatText | Server/Modules/Database/LogDBManager.cs:124 | a natural number's decimal text is non-empty and made of digits |
| IntText.DigitsValueOfNatText | Server/Modules/Database/LogDBManager.cs:206 | reading a number's decimal digits gives the number back |
| IntText.FormatInt | Server/Modules/Database/LogDBManager.cs:124 | Int32.ToString is non-empty, has no '+', ends in a digit and holds only digits and '-' |
| IntText.FormatAll | Server/Modules/Logging/LogManager.cs:45-47 | every element is formatted, position by position |
| IntText.ParseInt32 | Client/Modules/ValidationModule.cs:40 | TryParse succeeds only on text holding a digit |
| IntText.FormatThenParse | Client/Modules/ValidationModule.cs:40 | every int parses back from its own decimal text |
| CombSort.Shrink | Server/Modules/Sorting/CombSortModule.cs:29 | the next gap is at least 1, strictly smaller than a gap above 1, and stays 1 at 1 |
| CombSort.AdjacentOrderedIsSorted | Server/Modules/Sorting/CombSortModule.cs:27-40 | when a full pass at gap 1 finds nothing to swap, the array is sorted |
| CombSort.SwapRemovesInversion | Server/Modules/Sorting/CombSortModule.cs:34-37 | swapping an out-of-order adjacent pair removes exactly one inversion, which bounds the loop |
| CombSort.Insert | Server/Modules/Sorting/CombSortModule.cs:15-43 | inserting into a sorted sequence keeps it sorted and adds exactly that element |
| CombSort.SortedCopy | Server/Modules/Sorting/CombSortModule.cs:15-43 | the reference sort: a sorted permutation of its input |
| CombSort.SortedPermutationsEqual | Server/Modules/Sorting/CombSortModule.cs:15-43 | two sorted sequences with the same elements are equal, so any correct sort gives the same result |
| CombSort.SortedCopyOfSorted | Server/Modules/Sorting/CombSortModule.cs:34-38 | already sorted input comes back unchanged |
| CombSort.SortedCopyIdempotent | Server/Modules/Sorting/CombSortModule.cs:15-43 | sorting twice is sorting once |
| CombSort.Reversed | Server/Modules/Sorting/CombSortModule.cs:56 | element i of the reverse is element n-1-i |
| CombSort.ReversedPermutes | Server/Modules/Sorting/CombSortModule.cs:56 | reversing keeps the elements |
| CombSort.ReversedTwice | Server/Modules/Sorting/CombSortModule.cs:56 | reversing twice gives the original |
| CombSort.DescendingIsReversedSort | Server/Modules/Sorting/CombSortModule.cs:51-58 | the only non-increasing arrangement of the input is the reversed ascending sort |
| CombSort.ReverseInPlace | Server/Modules/Sorting/CombSortModule.cs:56 | Array.Reverse leaves the array holding the reverse of its old contents |
| CombSort.Swap | Server/Modules/Sorting/CombSortModule.cs:36 | the tuple assignment exchanges two positions and keeps the elements |
| CombSort.CombPass | Server/Modules/Sorting/CombSortModule.cs:30-39 | a pass keeps the elements; with no swap it changed nothing and every element is at most the one gap places on; at gap 1 a swap strictly lowers the inversion count |
| CombSort.Sort | Server/Modules/Sorting/CombSortModule.cs:15-43 | a fresh array (the caller's is never written), empty for null or empty input, sorted, a permutation of the input, equal to SortedCopy of it |
| CombSort.SortInDirection | Server/Modules/Sorting/CombSortModule.cs:51-59 | ascending gives Sort's result; descending gives its reverse, non-increasing and a permutation of the input |
| Validation.Kept | Client/Modules/ValidationModule.cs:40-47 | a token adds at most one number: the one it parses to, or none |
| Validation.ParsedNumbers | Client/Modules/ValidationModule.cs:29-48 | the foreach loop with the per-token parse as a parameter (ParseToken in ValidateArray): never more numbers than tokens |
| Validation.ParsedNumbersAppend | Client/Modules/ValidationModule.cs:31-48 | tokens are read left to right, each on its own, so the numbers of concatenated token lists concatenate |
| Validation.ParsedNumbersPrefix | Client/Modules/ValidationModule.cs:31-48 | one more token extends the list by exactly its own contribution |
| Validation.ParseToken | Client/Modules/ValidationModule.cs:33-42 | a token made only of whitespace yields no number (the partners FormattedTokenParses and BracketsStripped state what it reads) |
| Validation.Tokens | Client/Modules/ValidationModule.cs:21-22 | every token is non-empty and holds no separator; with SplitCuts on the split they come from, the tokens are the separator-free runs of the input in order |
| Validation.IsNullOrWhiteSpace | Client/Modules/ValidationModule.cs:15 | string.IsNullOrWhiteSpace holds exactly for null and for text that Trim reduces to nothing |
| Validation.TokensKeepText | Client/Modules/ValidationModule.cs:21-22 | the tokens laid end to end are the input without its separators, so splitting loses nothing else |
| Validation.CollectNumbers | Client/Modules/ValidationModule.cs:29-48 | the foreach loop collects exactly the numbers of the parsing tokens, in order |
| Validation.ValidateArray | Client/Modules/ValidationModule.cs:13-56 | the result is Parsed(input); when not null it is non-empty and no longer than the token list |
| Validation.Parsed | Client/Modules/ValidationModule.cs:13-56 | null for null or blank input; otherwise, when not null, non-empty and at most one number per token (NullIffNothingParses says when it is null and what it holds) |
| Validation.BlankTokensParseToNothing | Client/Modules/ValidationModule.cs:33-35 | tokens made only of whitespace contribute no number |
| Validation.NullIffNothingParses | Client/Modules/ValidationModule.cs:15-55 | the result is null exactly when no token parses, and otherwise is the parsed numbers in token order |
| Validation.FormattedTokenParses | Client/Modules/ValidationModule.cs:33-42 | a decimal token parses to its number |
| Validation.ParsedNumbersEach | Client/Modules/ValidationModule.cs:31-48 | when the per-token parse reads each token as a number, the result is exactly those numbers |
| Validation.FormattedNumbersParse | Client/Modules/ValidationModule.cs:31-48 | decimal tokens give back their numbers |
| Validation.FormattedTokensAreClean | Client/Modules/ValidationModule.cs:21-22 | decimal tokens are non-empty and hold no separator |
| Validation.FormatJoinRoundTrip | Client/Modules/ValidationModule.cs:13-55 | any non-empty int list written in decimal, with one non-empty separator run repeated between the numbers, parses back to the same list |
| Validation.TrimWrapped | Client/Modules/ValidationModule.cs:33-38 | a bracket-wrapped token survives the whitespace trim and loses exactly its brackets |
| Validation.BracketsStripped | Client/Modules/ValidationModule.cs:33-40 | a token that starts with a digit or '-' and ends with a digit parses the same with a "[" before it, a "]" after it, or both |
| Validation.BracketedTokenParses | Client/Modules/ValidationModule.cs:33-42 | "[5", "5]" and "[5]" parse to 5 |
| Validation.WrappedTokensAreClean | Client/Modules/ValidationModule.cs:21-22 | brackets are not separators, so wrapping keeps tokens whole |
| Validation.WrapJoin | Client/Modules/ValidationModule.cs:21-22 | "[" + joined tokens + "]" is the join of the tokens with the brackets attached to the first and last |
| Validation.WrappedNumbersParse | Client/Modules/ValidationModule.cs:31-48 | bracket-wrapped decimal tokens give back their numbers |
| Validation.BracketedRoundTrip | Client/Modules/ValidationModule.cs:13-55 | "[1,2,3]" with one non-empty separator run repeated between the numbers parses back to the list |
| Logging.ParseLevel | Server/Modules/Database/LogDBManager.cs:195 | Enum.Parse yields a level exactly when the text is that level's name |
| Logging.LevelName | Server/Modules/Database/LogDBManager.cs:118 | the stored level text is a non-empty upper-case name, which ParseLevel reads back as its level |
| Logging.EncodeArray | Server/Modules/Database/LogDBManager.cs:123-126 | a null array is stored as NULL, any other as text, the empty one as "" |
| Logging.ParsePiece | Server/Modules/Database/LogDBManager.cs:206 | s => int.Parse(s.Trim()) fails on a blank piece (FormattedPieceParses states what it reads) |
| Logging.ParsePieces | Server/Modules/Database/LogDBManager.cs:206 | the Select over the pieces with the per-piece parse as a parameter (ParsePiece when reading a row): a successful read gives one number per piece |
| Logging.DecodeArray | Server/Modules/Database/LogDBManager.cs:201-217 | a stored array never reads back as an empty array |
| Logging.FormattedPieceParses | Server/Modules/Database/LogDBManager.cs:206 | int.Parse(s.Trim()) reads a number's decimal text back |
| Logging.ParsePiecesEach | Server/Modules/Database/LogDBManager.cs:206 | when the per-piece parse reads each piece as a number, the read gives exactly those numbers |
| Logging.FormattedPiecesParse | Server/Modules/Database/LogDBManager.cs:206 | every piece of a written array parses back to its number |
| Logging.ArrayRoundTrip | Server/Modules/Database/LogDBManager.cs:201-217 | null and non-empty arrays read back unchanged; an empty array reads back as null (the array written as at lines 123-126) |
| Logging.EncodeRow | Server/Modules/Database/LogDBManager.cs:110-126 | the row carries the entry's timestamp, message and user id, and a level text that parses to the entry's level |
| Logging.DecodeRow | Server/Modules/Database/LogDBManager.cs:192-217 | a row reads back exactly when its level and both arrays parse, and then keeps its timestamp, level, message and user id |
| Logging.RowRoundTrip | Server/Modules/Database/LogDBManager.cs:192-217 | every entry written reads back as itself, with empty arrays turned into null (the row written as at lines 110-126) |
| Logging.RequestedQuery | Server/Modules/Database/LogDBManager.cs:153-154 | each given bound is used as it is; a missing from is now minus seven days and a missing to is now, each on its own |
| Logging.Matches | Server/Modules/Database/LogDBManager.cs:156-177 | a matching row lies in a non-empty window, its level text reads back as the requested level, and with a user filter it has a user id (a NULL user never matches) |
| Logging.Where | Server/Modules/Database/LogDBManager.cs:156-177 | a row is selected exactly when it is in the table and meets the window, level and user filters |
| Logging.WhereCounts | Server/Modules/Database/LogDBManager.cs:156-177 | WHERE keeps duplicates: a matching row is selected as many times as the table holds it, any other row never |
| Logging.SelectLogs | Server/Modules/Database/LogDBManager.cs:156-227 | at most one entry per table row (SelectedRowsMatch, SelectedNewestFirst and SelectedComplete state which and in what order) |
| Logging.InsertByTime | Server/Modules/Database/LogDBManager.cs:179 | inserting into a newest-first list keeps it newest first and adds exactly that row |
| Logging.OrderByTimestampDesc | Server/Modules/Database/LogDBManager.cs:179 | the same rows, newest first |
| Logging.DecodeUntilMalformed | Server/Modules/Database/LogDBManager.cs:189-227 | the reader never yields more entries than rows |
| Logging.DecodedPrefix | Server/Modules/Database/LogDBManager.cs:189-227 | the entries are the decoded rows of a prefix, and the read stops at the first row that fails to parse |
| Logging.DecodedAll | Server/Modules/Database/LogDBManager.cs:190-219 | when every row parses, every row is returned |
| Logging.ReadRows | Server/Modules/Database/LogDBManager.cs:190-220 | the while loop collects exactly DecodeUntilMalformed of the ordered rows |
| Logging.OrderedRowMatches | Server/Modules/Database/LogDBManager.cs:156-179 | every ordered row is a selected row of the table |
| Logging.MatchingRowIsOrdered | Server/Modules/Database/LogDBManager.cs:156-179 | every selected row is among the ordered rows |
| Logging.SelectedRowsMatch | Server/Modules/Database/LogDBManager.cs:156-227 | every entry returned is the decoding of a table row that meets the filters |
| Logging.SelectedNewestFirst | Server/Modules/Database/LogDBManager.cs:179 | returned entries are ordered by timestamp, non-increasing |
| Logging.SelectedComplete | Server/Modules/Database/LogDBManager.cs:156-227 | when every row parses, one entry comes back per selected row and every selected row is listed |
| Logging.LoggedEntryListed | Server/Modules/Database/LogDBManager.cs:146-227 | an entry added to a readable table is listed by every select whose filters it meets (the entry added as at lines 105-129) |
| Logging.ListTextReadsBack | Server/Modules/Logging/LogManager.cs:47 | the bracketed ", "-joined list in a sort message parses back to the array through ValidateArray's reading |
| Logging.ListText | Server/Modules/Logging/LogManager.cs:47 | the list is bracketed: it starts with "[" and ends with "]" |
| Logging.SortMessage | Server/Modules/Logging/LogManager.cs:47 | the stored message starts with the caller's message and ends with the bracketed output list |
| Logging.LogRecord | Server/Modules/Logging/LogManager.cs:21-31 | the entry Log inserts reads back with the caller's time, level, message and user id, and no arrays |
| Logging.SortRecord | Server/Modules/Logging/LogManager.cs:49-60 | the entry LogSortOperation inserts reads back with level INFO, the composed message, and each array unchanged when non-empty and null when empty |
| Logging.LogManager.constructor | Server/Modules/Logging/LogManager.cs:10-13 | the manager starts over the given connection state and table |
| Logging.LogManager.Log | Server/Modules/Logging/LogManager.cs:15-37 | without a connection the table is unchanged; otherwise one row is appended with the given level, message and user, a timestamp of now and no arrays |
| Logging.LogManager.LogSortOperation | Server/Modules/Logging/LogManager.cs:39-67 | without a connection the table is unchanged; otherwise one INFO row is appended with the composed message and both arrays comma-joined |
| Logging.LogManager.GetLogs | Server/Modules/Logging/LogManager.cs:69-149 | empty without a connection; otherwise the select with defaults now minus seven days and now, and the user filter applied to any non-null user id |
| LogDatabase.DbUserFilter | Server/Modules/Database/LogDBManager.cs:173-177 | the user filter applies only to a non-empty id, and differs from LogManager's exactly on the empty id |
| LogDatabase.Since | Server/Modules/Database/LogDBManager.cs:240 | a row is kept exactly when its timestamp is not older than the bound |
| LogDatabase.Before | Server/Modules/Database/LogDBManager.cs:240 | a row is deleted exactly when its timestamp is older than the bound |
| LogDatabase.SinceBeforePartition | Server/Modules/Database/LogDBManager.cs:240-246 | every row is either kept or deleted, copies included, so the kept and deleted counts add up to the table size |
| LogDatabase.LogDBManager.constructor | Server/Modules/Database/LogDBManager.cs:9-11 | a new manager has no connection |
| LogDatabase.LogDBManager.ConnectToDB | Server/Modules/Database/LogDBManager.cs:18-51 | the result is whether the database opened, the manager is connected exactly then, and the table is kept |
| LogDatabase.LogDBManager.Disconnect | Server/Modules/Database/LogDBManager.cs:85-98 | afterwards the manager is disconnected and the table is unchanged |
| LogDatabase.LogDBManager.AddLog | Server/Modules/Database/LogDBManager.cs:105-136 | true exactly when connected, and then exactly the entry's row is appended; otherwise the table is unchanged |
| LogDatabase.LogDBManager.GetLogs | Server/Modules/Database/LogDBManager.cs:146-228 | empty when disconnected; otherwise the select with the default window and the user filter only for a non-empty id |
| LogDatabase.LogDBManager.DeleteOldLogs | Server/Modules/Database/LogDBManager.cs:235-253 | when connected, exactly the rows older than the bound are removed and their number is returned; otherwise 0 and nothing changes |
| LogDatabase.LogDBManager.GetLogCount | Server/Modules/Database/LogDBManager.cs:259-277 | the table size when connected, 0 otherwise |

## Left out

- CombSort.Shrink: the gap is `gap * 10 / 13` on integers, not the source's double division `gap / 1.3`. Sortedness, permutation and termination hold for any shrink that keeps the gap at least 1 and lowers every gap above 1.
- IntText.ParseInt32: the culture settings (`NumberFormatInfo`) and the trailing NUL characters .NET tolerates are not modelled. A token is optional whitespace, an optional sign and ASCII digits within the int range.
- IntText.FormatInt: formats with the invariant culture's "-". A culture with another negative sign is not modelled.
- IntText.WhiteSpace: `char.IsWhiteSpace` is written out as its 25 characters. Surrogate pairs and other Unicode handling do not arise.
- Logging.ParseLevel: `Enum.Parse` also accepts numeric text ("1"), comma-separated names and surrounding whitespace. The model accepts only the exact names `LevelName` writes, which are the only level texts the code stores.
- Logging.DecodeRow: `GetDateTime` on an unreadable timestamp is not modelled. Timestamps are integers that always read back.
- SQL engine behaviour:
  - Exceptions other than parse failures (locked or corrupt database, I/O errors) are not modelled; every statement on an open connection succeeds, so `AddLog`'s `result == 1` is true exactly when connected.
  - SQLite's text storage of `DateTime` and its text comparison are modelled as comparisons of tick counts.
  - The order of rows with equal timestamps under `ORDER BY Timestamp DESC` is left open by SQLite. `OrderByTimestampDesc` fixes one order, and the lemmas rely only on "same rows, newest first".
- The `Id` and `CreatedAt` columns and the indexes are never read by the code and are not modelled.
- LogDatabase.LogDBManager.ConnectToDB: the path, directory creation, `CREATE TABLE IF NOT EXISTS` and console output are not modelled. The table reached by the path is given to the constructor, and whether it opens is the `opens` parameter.
- LogDatabase.LogDBManager.GetLogCount: `Convert.ToInt32` of a count above the int range is not modelled.
- LogDatabase.LogDBManager.DeleteOldLogs: the removed count is an unbounded integer; a count above the int range is not modelled.
- Logging.LogManager: it reaches the database through `DBManager.GetConnection()`, which `DBManager.cs` does not define. The connection is modelled as present or absent, fixed at construction. Errors caught and printed by `Log` and `LogSortOperation` are not modelled.
- `DateTime.UtcNow` is the `now` parameter.
- `Console.WriteLine` output, including ValidateArray's warning for skipped tokens, is not modelled.
- `ValidationModule.ValidateFilePath` and `ValidationModule.ValidateFileFormat` do file-system I/O and are not part of this model.
- Server/Program.cs, Client/Program.cs, Server/Modules/Database/DBManager.cs, Client/Modules/EncryptionModule.cs, Client/Modules/HttpClientModule.cs and Client/wwwroot/app.js are not part of this model. They hold HTTP routing, user storage, AES encryption, the HTTP client and the browser UI.
