# Flashcard study client: card markup, review scheduling, deck import and deck store

This project models, in Dafny, the logic at the heart of a spaced-repetition
flashcard client and proves properties of it:

- **Card markup** (`src/renderer.py`). `render_content` scans a card's text
  for blocks `[TAG]body[/TAG]` / `[TAG=param]body[/TAG]` exactly as
  `re.finditer` runs the block pattern: leftmost, non-overlapping, the body
  the shortest text up to the first closer with the *same* tag, and a
  scan that moves on one character when an opener has no closer. The
  console output becomes a sequence of items: stripped non-blank text gaps,
  tables, code views and diagnostics. `parse_table_data` splits a table body
  into trimmed header and row cells and pads short rows. Both are
  imperative methods (`TableParser.ParseTableData`, `Renderer.RenderContent`
  with its `last_end` cursor) proved equal to functional specifications
  (`TableOf`, `Render`). The properties are proved about those.
- **Review scheduling** (`src/srs_logic.py`). `calculate_next_review` is
  modelled as a pure function. Ease is kept in integer hundredths (2.5 is
  250). The day is a day number passed in. Python's `round` is exact
  round-half-to-even.
- **Deck import validation** (`src/parser.py`). `parse_deck` runs over a
  small JSON datatype. `DeckDocument.ParseDeck` updates the document in
  place, as the source mutates its dict, including the stripped name that is
  already stored when a later card fails.
- **Deck store** (`src/db_client.py`). The `decks` and `cards` tables are an
  in-memory store in the `Database` class. `GetAllDecks` counts due cards in
  one pass over the cards, as the source does. `ImportDeck` performs the
  name check, the deck insert, the id check, the batch card insert and the
  compensating delete. `DeleteDeck` performs the existence check and the
  cascading delete. Whether each remote request fails is an input (a fault
  flag), not something the model decides.

Files: `wrappers.dfy` (Option/Result), `text.dfy` (Python `strip`, `split`,
`join`, string `<=`), `table.dfy`, `renderer.dfy`, `srs.dfy`, `json.dfy`,
`deck_parser.dfy`, `db_client.dfy`.

## Model

| member | source | states |
|---|---|---|
| Text.IsBlank | src/renderer.py:12 | the falsy test `not line.strip()`: every character is one of the whitespace characters `strip()` removes; `BlankIffTrimEmpty` proves it agrees with an empty `strip()` |
| Text.Trim | src/renderer.py:12 | `strip()` never lengthens a string, and its result neither starts nor ends with whitespace |
| Text.TrimIsInfix | src/renderer.py:12 | `strip()` returns the slice between the leading and the trailing whitespace runs, and both runs are all whitespace |
| Text.BlankIffTrimEmpty | src/renderer.py:12 | `line.strip()` is empty (falsy) exactly when the line is all whitespace |
| Text.TrimIdempotent | src/renderer.py:49 | stripping a stripped text changes nothing |
| Text.Split | src/renderer.py:16 | splitting on the bar separator yields at least one piece, and no piece contains the separator |
| Text.Join | src/renderer.py:16 | `sep.join(parts)`, the inverse the round trips of `split` are stated against: `SplitJoin` and `JoinSplit` prove each undoes the other |
| Text.SplitJoin | src/renderer.py:16 | joining the pieces of `split` with the separator gives back the line, so no character is lost |
| Text.JoinSplit | src/renderer.py:22 | splitting a separator-free list joined by the separator gives back the list, empty pieces included |
| Text.LexLe | src/db_client.py:44 | Python's `<=` on strings: character by character, a proper prefix before its extensions; `LexLeTotal`, `LexLeAntisymmetric` and `LexLeTransitive` prove it a total order |
| Text.LexLeTotal | src/db_client.py:44 | any two date strings are comparable with `<=` |
| Text.LexLeAntisymmetric | src/db_client.py:44 | two strings each `<=` the other are equal |
| Text.LexLeTransitive | src/db_client.py:44 | string `<=` is transitive |
| TableParser.KeepNonBlank | src/renderer.py:12 | every kept line is non-blank and comes from the input, every non-blank input line is kept, and no more lines come out than go in |
| TableParser.KeepNonBlankOne | src/renderer.py:12 | a single line is kept exactly when it is not blank, and kept unchanged |
| TableParser.KeepNonBlankAppend | src/renderer.py:12 | filtering a concatenation filters each part and concatenates the results, so the filter keeps the non-blank lines in their original order and with their repetitions |
| TableParser.NonBlankLines | src/renderer.py:12 | the lines of the stripped body, split on newlines, without the blank ones; their order and contents follow from `KeepNonBlankAppend`, `KeepNonBlankOne` and `SplitJoin` |
| TableParser.Cells | src/renderer.py:16 | a line gives one trimmed cell per bar-separated piece, empty cells kept |
| TableParser.Blanks | src/renderer.py:25 | the padding is exactly `n` empty strings |
| TableParser.Pad | src/renderer.py:24-25 | a row shorter than the header is extended with empty cells; `PadShape` proves its length and contents |
| TableParser.PadShape | src/renderer.py:24-25 | padding only appends empty strings: a short row grows to the header width, a long row keeps its length, and the row starts with its own cells |
| TableParser.TableOf | src/renderer.py:10-28 | the pair `parse_table_data` returns, with `(None, None)` as no table; `TableOfShape` proves its shape and `ParseTableData` that the loop computes it |
| TableParser.TableOfShape | src/renderer.py:12-28 | no table exactly when the stripped body has fewer than two non-blank lines; otherwise the headers are the first line's cells, the second line is dropped, one row per later line in order, each row at least header-wide, its own cells first, padded to exactly the header width when short, unchanged when long |
| TableParser.ParseTableData | src/renderer.py:10-28 | the loop that appends the padded rows returns exactly the table `TableOf` describes |
| Renderer.RunEnd | src/renderer.py:36 | a greedy character-class run stays inside the text and never moves backwards; `RunEndIsMaximal` and `RunEndOver` prove it is the longest run |
| Renderer.FindFrom | src/renderer.py:36 | an occurrence found lies at or after the start and fits in the text; `FindFromIsFirst` proves it the first one |
| Renderer.RunEndIsMaximal | src/renderer.py:36 | a greedy `[A-Z]+` / `[a-zA-Z0-9_\-]+` run covers only characters of its class and stops at the first character outside it |
| Renderer.FindFromIsFirst | src/renderer.py:36 | the lazy `(.*?)` body ends at the first occurrence of the closer, and "no closer" means none occurs at all |
| Renderer.Closed | src/renderer.py:36 | a block closed by the first closer of its tag starts at its opener and lies inside the text |
| Renderer.MatchAt | src/renderer.py:36 | a block reported at a position starts at that position and lies inside the text; `MatchAtSound` and `MatchAtComplete` prove it is exactly the pattern's match there |
| Renderer.MatchAtSound | src/renderer.py:36 | a block reported at a position is well formed: `[`, a non-empty upper-case tag, an optional non-empty `=param` of the allowed characters, `]`, a body with no closer of the same tag in it, and `[/TAG]` with the same tag |
| Renderer.MatchAtComplete | src/renderer.py:36 | every well-formed block starting at a position is the block reported there, so the scanner finds exactly what the pattern matches |
| Renderer.ClosedWellFormed | src/renderer.py:36 | an opener followed by the first matching closer forms a well-formed block |
| Renderer.Scan | src/renderer.py:39 | `finditer`'s loop over a matcher: take the match at the first position that has one and resume at its end; `ScanChained` and `ScanIsLeftmost` prove its output ordered, non-overlapping and leftmost |
| Renderer.FindIter | src/renderer.py:39 | the blocks found lie inside the text, in order and without overlap |
| Renderer.ScanIsLeftmost | src/renderer.py:39 | each block found is the leftmost match from the cursor, no match starts between the cursor and it, and the scan resumes at its end; an opener without a closer is passed over |
| Renderer.LeftmostScanUnique | src/renderer.py:39 | there is only one leftmost non-overlapping sequence of matches |
| Renderer.FindIterIsLeftmost | src/renderer.py:39 | the scanner's result is the leftmost non-overlapping sequence and the only one |
| Renderer.Gap | src/renderer.py:43-45 | the stripped text before a block, printed only when not empty; `GapShape` proves when it prints and what |
| Renderer.GapShape | src/renderer.py:43-45 | a gap produces output exactly when it is not blank, and then a single stripped text |
| Renderer.BlockItem | src/renderer.py:47-70 | a block never renders as plain text |
| Renderer.BlockItemCases | src/renderer.py:49-70 | `TABLE` renders as a table exactly when its stripped body has two or more non-blank lines, and as the table the parser builds; otherwise as an error carrying the whole block; `CODE` carries the stripped body and the parameter as written, or `text`; any other tag gives a warning carrying the whole block |
| Renderer.RawIsWholeBlock | src/renderer.py:61-70 | the text a diagnostic carries is the block verbatim: opener, unstripped body, closer |
| Renderer.Gaps | src/renderer.py:38-75 | one gap per match plus the text after the last one |
| Renderer.GapsBetween | src/renderer.py:38-75 | gap `k` is exactly the text from the end of the previous match (or the cursor) to the start of match `k` (or the end of the text), the slices `content[last_end:start]` and `content[last_end:]` take |
| Renderer.Weave | src/renderer.py:38-77 | each gap's output followed by the next block's item; `WeaveContents` and `WeaveStripped` prove which items it holds and in what order |
| Renderer.Render | src/renderer.py:30-77 | the whole output of `render_content`; `RenderContents` proves its blocks and texts and `RenderContent` that the loop computes it |
| Renderer.WeaveContents | src/renderer.py:38-77 | interleaving gaps and blocks keeps the blocks in order and keeps exactly the non-blank gaps, stripped, in order |
| Renderer.WeaveStripped | src/renderer.py:43-45 | every text item emitted is non-empty and already stripped |
| Renderer.RenderContents | src/renderer.py:30-77 | the output's blocks are the items of the matches in source order, and its texts are the stripped non-blank gaps, including the text after the last block, in order |
| Renderer.PendingCons | src/renderer.py:38-72 | one loop iteration emits the gap before the block, then the block, and leaves the rest to the scan from the block's end |
| Renderer.RenderBlock | src/renderer.py:47-70 | the dispatch on the tag produces the block's item |
| Renderer.PrintBlock | src/renderer.py:40-72 | one iteration appends the gap before the block, if any, then the block's item |
| Renderer.PrintRemaining | src/renderer.py:74-77 | the text after the last block is appended when not blank |
| Renderer.RenderContent | src/renderer.py:30-77 | the `finditer` loop with its `last_end` cursor emits exactly `Render(content)` |
| Srs.RoundHalfEven | src/srs_logic.py:38 | `round(n / d)` is within half a step of `n / d`, and an exact tie goes to the even integer |
| Srs.RoundHalfEvenUnique | src/srs_logic.py:38 | any integer with those properties is the rounding result, so the rounding is determined |
| Srs.FloorEase | src/srs_logic.py:53-55 | the ease is at least 1.3, and unchanged when already at or above it |
| Srs.ClampInterval | src/srs_logic.py:57-61 | the interval lies in [1, 36500], and unchanged when already inside |
| Srs.NextReview | src/srs_logic.py:8-70 | fails exactly for a rating other than again/good/easy; otherwise the interval is in [1, 36500], the ease at least 1.3, and the review day today plus the interval; `again` gives learning, interval 1, ease max(1.3, ease − 0.2); `good` and `easy` give review, 1 or 4 days from new/learning, the rounded product otherwise, ease floor-clamped (`easy`: raised by 0.15) |
| Srs.MissingKeysDefault | src/srs_logic.py:20-22 | a state without keys behaves as interval 0, ease 2.5, status new |
| Srs.GoodReviewInterval | src/srs_logic.py:38 | `round(interval * ease_factor)` with the ease in hundredths; `RoundHalfEven` proves it the nearest integer, ties to even |
| Srs.EasyReviewInterval | src/srs_logic.py:45 | `round(interval * ease_factor * 1.3)` with the ease in hundredths; `RoundScaled`, `RoundMonotone` and `EasyNotSoonerThanGood` prove it never below the `good` interval |
| Srs.RoundScaled | src/srs_logic.py:38-45 | `x / 100` and `10x / 1000` round to the same integer |
| Srs.RoundMonotone | src/srs_logic.py:45 | rounding never goes down as the value goes up |
| Srs.EasyNotSoonerThanGood | src/srs_logic.py:33-49 | from any state, `easy` schedules no sooner than `good` and leaves an ease no lower |
| DeckParser.CheckCard | src/parser.py:19-40 | a card passes exactly when it is an object with string front/back and a list of strings as tags (missing tags read as `[]`); a failure names the card's index; a pass keeps only the three fields, contents unchanged |
| DeckParser.CheckCards | src/parser.py:17-42 | the card loop, stopping at the first failure; `CheckCardsFirstFailure` proves the cleaned cards match the input one for one, or that the error is the first failing card's |
| DeckParser.CheckCardsFirstFailure | src/parser.py:17-42 | on success there is one cleaned card per input card, in order; on failure the error is that of the first card, by index, that does not pass, and all earlier cards pass |
| DeckParser.ParseDeckSpec | src/parser.py:1-45 | what `parse_deck` returns or raises and what it leaves in the caller's object; `ParseDeckHeader`, `ParseDeckKeepsOtherKeys`, `ParseDeckCards` and `ParseDeckFirstBadCard` prove each part of that |
| DeckParser.ParseDeckHeader | src/parser.py:6-15 | a non-object root or a missing, non-string or blank name is refused with the input unchanged; otherwise the name is stored stripped, and the cards error is raised exactly when `cards` is missing or not a list |
| DeckParser.ParseDeckKeepsOtherKeys | src/parser.py:12-45 | the document keeps the same keys, and every key other than the name and the cards keeps its value |
| DeckParser.ParseDeckCards | src/parser.py:29-45 | on success the document itself is returned, every input card is valid, and the output cards match them in number and order, each cleaned |
| DeckParser.ParseDeckFirstBadCard | src/parser.py:18-40 | a card error names the first invalid card, and all cards before it are valid |
| DeckParser.CleanCardIsCard | src/parser.py:29-40 | a cleaned card passes the check again unchanged |
| DeckParser.CheckCardsIdempotent | src/parser.py:17-42 | checking the cleaned cards again gives the same cards |
| DeckParser.ParseDeckIdempotent | src/parser.py:1-45 | parsing a parsed deck succeeds and changes nothing |
| DeckParser.DeckDocument.ParseDeck | src/parser.py:1-45 | the document is updated in place and the result returned as `ParseDeckSpec` describes, including the stripped name when a card fails |
| DeckParser.CheckAll | src/parser.py:17-42 | the loop over the cards returns what `CheckCards` gives: the cleaned cards, or the first card's error |
| DeckParser.ParsedCardsStop | src/parser.py:18-40 | once a card fails, later cards cannot change the outcome |
| DbClient.IsDue | src/db_client.py:42-45 | a card is due when new, or when its review date is present, not empty and not after today as a string; `DueCountLater` proves a due card stays due |
| DbClient.DueCount | src/db_client.py:37-48 | the number of a deck's due cards; `DueCountAppend` and `DueCountZero` prove it adds up and is 0 only with no due card |
| DbClient.AllDecks | src/db_client.py:19-58 | what `get_all_decks` returns; `GetAllDecks` proves the one-pass counting loop computes it |
| DbClient.DueCountAppend | src/db_client.py:37-48 | due counts add up over consecutive stretches of cards |
| DbClient.DueCountZero | src/db_client.py:41-52 | a deck's due count is 0 exactly when none of its cards is due |
| DbClient.DueCountLater | src/db_client.py:41-45 | a card due today is due on any later date, so counts never drop as the date advances |
| DbClient.Database.GetAllDecks | src/db_client.py:19-58 | `[]` when a request fails or there are no decks; otherwise every deck in order with its due-card count, where a card is due if new or its review date is not after today |
| DbClient.CountNamed | src/db_client.py:110-111 | the count of decks with a name is 0 exactly when no deck has that name |
| DbClient.CountWithId | src/db_client.py:172-173 | the count of decks with an id is 0 exactly when no deck has that id |
| DbClient.RemoveDeck | src/db_client.py:177 | the delete with its cascade; `DeleteRemoves` and `RemoveDeckKeepsValid` prove what it removes and keeps |
| DbClient.DeleteSpec | src/db_client.py:166-183 | what `delete_deck` does to the store and returns or raises; `DeleteRemoves` proves each outcome |
| DbClient.WithoutDeckSound | src/db_client.py:177 | the delete leaves only decks of the store, and none with the id |
| DbClient.WithoutCardsSound | src/db_client.py:177 | the cascade leaves only cards of the store, and none of the deleted deck |
| DbClient.WithoutDeckKeeps | src/db_client.py:177 | every other deck survives the delete |
| DbClient.WithoutCardsKeeps | src/db_client.py:177 | every card of another deck survives the cascade |
| DbClient.DeleteRemoves | src/db_client.py:166-183 | a successful delete removes the deck and all its cards and keeps every other deck and card; a missing id is reported as not found; any failure leaves the store unchanged |
| DbClient.RemoveDeckKeepsValid | src/db_client.py:177 | deleting keeps ids and names unique and every card attached to a deck |
| DbClient.Database.DeleteDeck | src/db_client.py:166-183 | the method changes the store and answers as `DeleteSpec` describes, and keeps ids and names unique and every card attached to a deck |
| DbClient.NewRows | src/db_client.py:139-149 | one row per input card, in order, each with the new deck id, the card's front, back and tags, status new, interval 0 and ease 2.5 |
| DbClient.ImportSpec | src/db_client.py:98-163 | what `import_deck` does to the store and returns or raises; `ImportRefusesTakenName`, `ImportAdds`, `ImportRollsBack`, `ImportKeepsValid` and `DeleteUndoesImport` prove each outcome |
| DbClient.ImportRefusesTakenName | src/db_client.py:108-117 | with the check working, a name already in the store is refused, before any insert, exactly when some deck has it |
| DbClient.ImportAdds | src/db_client.py:119-153 | on success the deck is added under the next id (non-zero), the old cards stay first, and one new row per input card follows in order; with no cards none is added |
| DbClient.ImportRollsBack | src/db_client.py:151-163 | when the card insert fails and the deck is deleted again, both tables are as they were before the import |
| DbClient.ImportKeepsValid | src/db_client.py:98-163 | every outcome of an import keeps ids and names unique, ids below the sequence and every card attached to a deck |
| DbClient.ImportedCardsAreDue | src/db_client.py:139-149 | all cards of a freshly imported deck are due, so its due count is its card count |
| DbClient.DeleteUndoesImport | src/db_client.py:98-183 | deleting a deck right after importing it gives back both tables as they were |
| DbClient.Database.ImportDeck | src/db_client.py:98-163 | the step sequence changes the store and answers as `ImportSpec` describes, and keeps ids and names unique, ids below the sequence and every card attached to a deck |

## Left out

- Console output through `rich` (Markdown formatting of gaps, table and code styling, panels, colours). Gaps stay opaque stripped strings; tables and code views carry the data handed to `rich`.
- Renderer.RenderContent: a diagnostic is modelled as printed, carrying the whole block, and the scan goes on after it. The source embeds `match.group(0)` in a `rich` markup string (src/renderer.py:61 and src/renderer.py:70). The block's own closer, such as `[/TABLE]` or `[/FOO]`, reads to `rich` as a closing tag with no opener, so `rich` raises a markup error there and `render_content` prints nothing for that block or anything after it. The `rich` markup parser is not part of this model.
- Python's `re` engine itself. The block pattern is re-expressed as an explicit scanner proved to find exactly the well-formed blocks, leftmost first.
- Whitespace for `strip()`: the ASCII whitespace characters plus U+001C..U+001F, U+0085 and U+00A0. Other Unicode spaces are not modelled.
- Srs.NextReview: ease is modelled in exact hundredths. Float error in `ease - 0.2`, `ease + 0.15`, the products and `round(x, 2)` is not modelled. With ease in hundredths, `round(ease, 2)` is the identity.
- Srs.NextReview: the review date is today's day number plus the interval. `date.today()`, `timedelta` and `isoformat()` are not modelled.
- JSON numbers are integers and object key order is not represented, so `parse_deck`'s reordering of keys is invisible.
- The Supabase client, `.env` loading and network transport. Each remote request's failure is a fault flag supplied by the caller.
- DbClient.Database.GetAllDecks: lists decks in store order. The ordering by name is done by the database query (`order('name')`) and is not modelled.
- DbClient.Database.GetAllDecks: the source annotates the dicts returned by its own query in place. The model builds the annotated list instead.
- DbClient.Database.ImportDeck: a deck insert that reports no data is modelled as inserting nothing. The remote row that may exist in that case is not modelled.
- DbClient.Database.ImportDeck: `CardInsertFailed(rolledBack)` records which branch of the rollback ran. The source raises the same exception in both branches and only logs the difference.
- Logging `print` calls in the database client.
- `get_cards_for_deck`, `get_due_cards_for_deck`, `get_card`, `update_card_srs` and `get_db_client`: query plumbing with no logic of their own.
- `main.py`: HTTP routing and status codes around these functions.
- The browser-side study session: it is not part of the repository's source files.
- A `CODE` block's parameter is passed to `Syntax` as written (src/renderer.py:64): it is not lower-cased, and no leading `sql` is removed from the body.
- A table row longer than the header keeps all its cells (src/renderer.py:24-26): only short rows are changed.
- A gap is handed to `rich` as one Markdown text (src/renderer.py:43-45): the code does not split it into inline-code runs itself, so the model does not either.
