# Transaction report utility: selection and formatting, in Dafny

This project models the core of a small reporting utility for bank
operations (`src/utils.py`). It has two parts:

- **Selector:** `last_n_operations(data, n, state)`. It keeps the operation
  records whose optional `state` equals the requested state. It sorts them
  newest first by their `date` string, using Python's stable
  `sorted(..., reverse=True)`, and returns the first `n`. A caller that
  gives no `n` or `state` gets 5 and `EXECUTED` (`DefaultCount`,
  `DefaultState`).
- **Formatter:** `format_operation(op)`. It renders one record as three
  lines: `DD.MM.YYYY <description>:`, then `<from> -> <to>`, then
  `<amount> <currency>`. A `to` longer than eight characters becomes
  `Счет **` plus its own last four characters. A long `from` whose first
  word is `Счет` becomes `Счет **` plus the last four characters of `to`,
  and formatting fails when `to` is absent. Any other long `from`, a card
  descriptor `<name> <number>`, is masked to `<name> NNNN NN** **** NNNN`.

Modules:

- `PyStr` (`pystr.dfy`): the Python built-ins the code relies on. This covers
  slicing with clamped and negative bounds (`s[:n]`, `s[-4:]`, `s[5:7]`),
  `str.split(" ")` and `" ".join(...)`, and the code-point order Python uses
  to compare `str` values.
- `Records` (`records.dfy`): the operation record. Absent keys are `None`.
- `Selector` (`selector.dfy`): the filter, a stable descending insertion
  sort, and the take. Also the lemmas about them.
- `Formatter` (`formatter.dfy`): date reordering, masking of `to` and
  `from`, the card split and the three-line layout. It also holds the
  corrected variants described under "## Findings".

The source is pure, so everything is a function or a lemma.

The model follows the code where a plain reading of the utility would
differ:

- A negative `n` does not give an empty result. Python's `[:n]` then drops
  the last `-n` matching records, and `LastNLength` states exactly that.
- A card number shorter than expected does not fail. `Slice` clamps both
  bounds, and `MaskCardSlices` gives the mask for every length of number:
  seven or more, five or six, and at most four.
- The `Счет` branch of `from` really does use the tail of `to`. It really
  does fail when `to` is absent.

## Model

| member | source | states |
|---|---|---|
| PyStr.Slice | src/utils.py:57 | Python `s[lo:hi]` never fails; with bounds inside the string it is the exact slice, an end past the string stops at the end, and a start at or past the end gives the empty string |
| PyStr.Take | src/utils.py:30 | `s[:n]` is the first `min(n, len)` elements for `n >= 0`, and all but the last `-n` for negative `n` |
| PyStr.TakeIsPrefix | src/utils.py:30 | `s[:n]` is a prefix of `s` and never holds a record more often than `s` does |
| PyStr.LastFour | src/utils.py:50 | `s[-4:]` is the last four characters, or the whole string when it is shorter |
| PyStr.Split | src/utils.py:52 | `split(" ")` always yields at least one piece and no piece contains the separator |
| PyStr.Join | src/utils.py:55 | `" ".join` starts with the first piece and, when there are more pieces, puts the separator right after it; its round trip with `Split` is proved in `JoinSplit` and `SplitJoin` |
| PyStr.JoinSplit | src/utils.py:55 | joining the pieces of a split with the separator gives the original string back |
| PyStr.SplitJoin | src/utils.py:55-56 | splitting a join of separator-free pieces gives the pieces back (the other direction of the round trip) |
| PyStr.SplitNoSeparator | src/utils.py:56 | a string without the separator splits into just itself |
| PyStr.SplitAtFirst | src/utils.py:52 | splitting `a + sep + b` with separator-free `a` gives `a` followed by the pieces of `b` |
| PyStr.SplitMoreThanOne | src/utils.py:55-56 | a string contains the separator exactly when its split has more than one piece |
| PyStr.JoinSnoc | src/utils.py:55-56 | all pieces but the last, joined, then the separator and the last piece, equal the join of all pieces |
| PyStr.FirstPiece | src/utils.py:52 | the first piece equals a separator-free word `w` exactly when the string is `w` or starts with `w` and the separator |
| PyStr.LexLeMatchesFirstDifference | src/utils.py:30 | the string order used by the sort holds exactly when one string is a prefix of the other or they first differ at a smaller code point |
| PyStr.LexLeReflexive | src/utils.py:30 | every date compares `<=` to itself |
| PyStr.LexLeAntisymmetric | src/utils.py:30 | two dates each `<=` the other are equal |
| PyStr.LexLeTransitive | src/utils.py:30 | the date order is transitive |
| PyStr.LexLeTotal | src/utils.py:30 | any two dates are comparable |
| Selector.Filter | src/utils.py:29 | a record is kept exactly when it is in the input with `state` present and equal to the target; each matching record keeps its input multiplicity, and the others get none (its order is stated in `FilterAppend`) |
| Selector.FilterAppend | src/utils.py:29 | filtering a concatenation is the concatenation of the filtered parts, so the kept records stay in input order |
| Selector.FilterWithDate | src/utils.py:29-30 | picking the records of one date and filtering by state commute, and both keep input order |
| Selector.WithDateMembers | src/utils.py:30 | the records of one date are exactly the input records carrying that date |
| Selector.Insert | src/utils.py:30 | inserting a record adds exactly that record to the multiset |
| Selector.SortDesc | src/utils.py:30 | the sort is a permutation of its input |
| Selector.InsertDescending | src/utils.py:30 | inserting into a descending sequence keeps it descending |
| Selector.SortDescDescending | src/utils.py:30 | the sorted records have non-increasing dates (pairwise) |
| Selector.InsertStable | src/utils.py:30 | insertion keeps, for every date, the records of that date in the order of `x` followed by `t` |
| Selector.SortDescStable | src/utils.py:30 | the sort is stable: for every date, its records appear in input order |
| Selector.DescendingStableUnique | src/utils.py:30 | two descending sequences with the same records in the same order for every date are equal |
| Selector.SortDescIsTheStableSort | src/utils.py:30 | any descending, stable arrangement of the input equals the insertion sort, so the model is Python's `sorted(..., reverse=True)` and no other |
| Selector.SortDescOfDescending | src/utils.py:30 | sorting an already descending sequence leaves it unchanged |
| Selector.FilterKeepsAllMatching | src/utils.py:29 | filtering records that all match leaves them unchanged |
| Selector.LastNOperations | src/utils.py:20-31 | the selection holds no record more often than the input does, and every selected record has the requested state |
| Selector.DefaultSelection | src/utils.py:20 | with the default arguments (5 and `EXECUTED`), the selection has `min(5, executed)` records, all executed |
| Selector.LastNSelectsState | src/utils.py:29-31 | every returned record comes from the input and has `state` present and equal to the requested state; records without `state` are never returned |
| Selector.LastNLength | src/utils.py:30 | for `n >= 0` the result has `min(n, matching)` records; for negative `n` it has all matching records but the last `-n` |
| Selector.LastNDescending | src/utils.py:30 | the result is newest first: adjacent (and all) dates are non-increasing |
| Selector.LastNIsSortedPrefix | src/utils.py:29-30 | the result is a prefix of the stable descending sort of the matching records, and a sub-multiset of the input |
| Selector.LastNStable | src/utils.py:29-30 | for every date, the selected records of that date are a prefix of the input's records of that date that have the requested state, taken in input order |
| Selector.LastNMostRecent | src/utils.py:30 | every matching record left out is no newer than any selected record |
| Selector.LastNIdempotent | src/utils.py:20-31 | selecting again from a selection with the same `n >= 0` and state returns it unchanged |
| Formatter.ReorderDate | src/utils.py:44 | the rendering is ten characters `DD.MM.YYYY`, with day, month and year the timestamp's fields |
| Formatter.ReorderDateRoundTrip | src/utils.py:44 | reading the `DD.MM.YYYY` rendering back gives the timestamp's `YYYY-MM-DD` date, so nothing is lost |
| Formatter.ReorderDateExample | src/utils.py:44 | `2019-08-26T10:50:58.294041` is accepted and renders as `26.08.2019` |
| Formatter.MaskTo | src/utils.py:49-50 | a `to` longer than 8 characters becomes `Счет **` followed by its exact last four characters (11 characters in all); any other `to` is unchanged |
| Formatter.MaskToKeepsTail | src/utils.py:49-53 | the masked `to` has the same last four characters as the original, which is what the `from` branch reuses |
| Formatter.MaskToExamples | src/utils.py:49-50 | `40817810099910004312` renders as `Счет **4312`, and `12345` and an absent `to` are unchanged |
| Formatter.CardName | src/utils.py:55 | a `from` with no space has an empty card name |
| Formatter.CardNumber | src/utils.py:56 | the card number holds no space, and a `from` with no space is its own number |
| Formatter.MaskCard | src/utils.py:57 | the card mask starts with the card name and a space, and ends with `** **** ` and the number's last four characters |
| Formatter.MaskFrom | src/utils.py:51-57 | masking `from` fails exactly when `from` is a long `Счет` identifier and `to` is absent; a long `Счет` `from` with `to` present becomes `Счет **` and the last four characters of (masked) `to`; any other long `from` becomes its card mask; a short or absent `from` passes through |
| Formatter.AccountFromStartsWithWord | src/utils.py:52 | for a long `from`, the first space-separated token is `Счет` exactly when it starts with `Счет ` |
| Formatter.AccountFromShowsToTail | src/utils.py:51-53 | a long `Счет` `from` renders as `Счет **` and the original `to`'s last four characters; with `to` absent it is the error |
| Formatter.CardSplitAtLastSpace | src/utils.py:55-56 | the number holds no space and `name + " " + number == from` when `from` has a space; otherwise the name is empty and the number is all of `from` |
| Formatter.MaskCardSlices | src/utils.py:57 | for a number of 7 or more characters the mask shows characters 0-3, then 5-6, then the last four; for 5 or 6 characters the second slice is clamped to the characters from 5 to the end; for at most 4 characters the clamped slices show it whole, twice, without failure |
| Formatter.MaskCardOfNameAndNumber | src/utils.py:55-57 | for a descriptor `name + " " + number` with a space-free number, the split recovers both parts, and the as-written and the corrected masks show the stated characters |
| Formatter.ShortFromPassesThrough | src/utils.py:51 | a `from` that is absent or at most 8 characters long passes through unmasked |
| Formatter.Render | src/utils.py:58 | a present field prints as itself and an absent one as `None` |
| Formatter.Entry | src/utils.py:58 | the entry is its three lines joined by newlines |
| Formatter.FormatOperation | src/utils.py:34-58 | formatting fails exactly when `to` is absent and `from` is a long `Счет` identifier |
| Formatter.FormatLayout | src/utils.py:46-58 | the result is `date description:`, `from -> to` and `amount currency` joined by newlines, with the masked fields and absent ones printed as `None` |
| Formatter.FormatHasThreeLines | src/utils.py:58 | when no line holds a newline of its own, splitting the result at newlines gives exactly its three lines |
| Formatter.ShortFieldsUnmasked | src/utils.py:46-51 | with `from` and `to` short or absent, formatting succeeds and the middle line shows them as they are |
| Formatter.AccountFromUsesWrongTail | src/utils.py:52-53 | as written, `from = "Счет 12345678"` with `to = "Счет 87654321"` renders as `Счет **4321`, not `Счет **5678`, and fails with `to` absent |
| Formatter.CardMaskSkipsFifthCharacter | src/utils.py:57 | as written, `Visa Platinum 7000792289606361` masks to `Visa Platinum 7000 92** **** 6361`; the corrected mask gives `7000 79` |
| Formatter.MaskCardIntended | src/utils.py:57 | corrected: the card mask still starts with the card name and a space and ends with `** **** ` and the last four characters (which characters it shows first is in `MaskCardIntendedShowsFirstSix`) |
| Formatter.MaskFromIntended | src/utils.py:51-57 | corrected: masking `from` never fails; a long `Счет` `from` becomes `Счет **` and its own last four characters, any other long `from` becomes the corrected card mask, and a short or absent `from` passes through |
| Formatter.MaskFromIntendedKeepsOwnTail | src/utils.py:53 | corrected: a long `Счет` `from` keeps its own last four characters, whatever `to` is |
| Formatter.MaskCardIntendedShowsFirstSix | src/utils.py:57 | corrected: the characters shown before the stars are the number's first six, none skipped |
| Formatter.FormatOperationIntended | src/utils.py:34-58 | the corrected formatter never fails; its result is the three lines joined by newlines, the middle one `from -> to` with `from` masked by `MaskFromIntended` and `to` by `MaskTo`; it agrees with the as-written one whenever `from` is not masked |

## Left out

- `read_operations` (src/utils.py:8-18): file I/O and JSON decoding. The model starts from a sequence of records.
- `PATH_DATA` and `OPERATIONS_FILE_PATH` (src/utils.py:5-6): they depend on the process working directory.
- `print_last_n_operations` (src/utils.py:61-74): it only prints. It prints each selected record's entry and a blank line, in the selector's order, and stops at the first formatting error.
- Amount rendering (src/utils.py:42, 58): `float(amount)` and `:.2f` are floating-point conversion and rounding. `FormatOperation` takes the rendered amount as the opaque string `amountText`.
- Formatter.FormatOperation: it requires a zero-padded, calendar-valid timestamp (`IsoTimestamp`) with a year from 1000 on. The model does not cover the other inputs. Some of them `strptime` accepts: unpadded fields, a lower-case `t`, non-ASCII decimal digits. Others make it raise a `ValueError`. For years below 1000, platform `strftime('%Y')` does not pad.
- Missing keys: `date`, `description`, `operationAmount`, `amount` and `currency.name` are always present in the record datatype. The `KeyError` a record without them raises is not modelled, nor is a non-string `state` or `date`.
- Lone surrogates: a Python `str` read from JSON can hold an unpaired surrogate code point, and a Dafny `string` cannot. The model covers strings without them.
- Input immutability holds trivially: records and sequences are values, so no call can change its argument.

## Findings

| source | as written | input that shows it | evidently intended | confidence | as-written member | corrected member |
|---|---|---|---|---|---|---|
| src/utils.py:53 | a long `Счет ...` `from` is masked with `to[-4:]`, the tail of the (masked) `to` | `from = "Счет 12345678"`, `to = "Счет 87654321"` gives `Счет **4321`; with `to` absent it raises `TypeError` | `'Счет **' + frm[-4:]`, giving `Счет **5678` and never failing | high (not executed) | Formatter.AccountFromUsesWrongTail | Formatter.MaskFromIntendedKeepsOwnTail |
| src/utils.py:57 | the card mask shows `number[5:7]` after `number[:4]`, skipping character 4 | `Visa Platinum 7000792289606361` gives `7000 92** **** 6361` | `number[4:6]`, the first six characters `7000 79** **** 6361` | medium (not executed) | Formatter.CardMaskSkipsFifthCharacter | Formatter.MaskCardIntendedShowsFirstSix |

`FormatOperation` models the code as written. `FormatOperationIntended`
renders with both corrections (`MaskFromIntended`, `MaskCardIntended`).
