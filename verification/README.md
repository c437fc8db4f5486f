# Label matcher model

A Dafny model of `label_matcher.py`, the script that removes duplicate
specimen records from the pnwmoths collection database. An image of a
specimen used to carry its own copy of the collection data in a "label"
record. For each image of a species, the script finds the specimen records
that duplicate the image's label, shows the label and each duplicate side by
side, and lets the operator pick one of four options for each duplicate:

1. delete the current label and use the duplicate instead;
2. use the duplicate, but keep the old label in the database;
3. delete the duplicate and leave the label alone;
4. change nothing.

Any other answer is rejected and the same duplicate is asked about again.

The model works on an in-memory store (`Matching.Store`): records are a map
from id to record, and images are a map from id to an image, which holds its
species and the id of its current record. It has four modules:

- `Specimens` (`specimens.dfy`): records, lookup-table rows, species, images,
  and the decimal text of an id.
- `Display` (`display.dfy`): `make_data`, the grid rows, the column padding
  of `print_grid`, and the lines it prints.
- `Matching` (`matching.dfy`): the candidate query, the menu answers, the
  effect of each decision, and the per-candidate, per-image and per-species
  loops of `match_species`.
- `SpeciesName` (`species_name.dfy`): the check that a typed species name is
  two words.

How the model reads the code:

- The candidate query compares the species with the `species_id` that
  `match_species` was called with, which is the image's species. It does not
  compare with the label's own species. The lemma `CandidateOfOwnSpecies`
  states the match when the two are the same.
- Foreign keys (state, county, collection) are compared by id. A null only
  equals a null, as the store's `filter(field=None)` does.
- The store returns records and images in an order it does not specify.
  `Store.Rows` and `Store.ImagesOf` pick an arbitrary order, and every
  property is stated for any order.
- The candidate list is computed once per image, before any decision, from
  the label as it was then. After option 1 or 2, later candidates are still
  the ones that matched the old label. A later option 1 deletes whatever
  record the image uses at that point. `Matching.StaleReplace` shows this
  behaviour as the code has it.
- Deleting a record that is already gone changes nothing.
- An image whose record is null, or no longer in the store, stops the run
  (`Outcome.LabelMissing`), because reading that record's fields raises an
  error that the script does not catch. This can happen: option 3 may delete
  a record that another image of the same species uses as its label. So,
  across images, the code does not keep the rule that no image refers to a
  deleted record. Within one image's own loop it does keep that rule
  (`Matching.ImageNeverDangles`).
- When the operator's answers run out, the run stops (`Outcome.InputExhausted`).
  Reading past the end of input raises an error the script does not catch.
- Text from the database is unicode, and Python 2's `str` encodes it with the
  ASCII codec. So `make_data` fails on a record whose genus, epithet, type,
  locality or other shown text has a character outside ASCII. `print_grid`
  then fails before printing anything, and `match_species` stops at that
  candidate with it undecided (`Outcome.TextNotAscii`). The error is a
  `ValueError`, so `main` reports it as "Species name must be two words" and
  asks again (`main` is not part of this model beyond the name split).

## Model

| member | source | states |
|---|---|---|
| `Specimens.DecimalString` | label_matcher.py:32 | the text of a record id is a non-empty run of decimal digits, with no leading zero unless the id is 0 |
| `Specimens.DecimalRoundTrip` | label_matcher.py:32 | reading back the text of an id gives the id, so distinct ids show as distinct text |
| `Display.Override` | label_matcher.py:23-30 | a present foreign key replaces exactly its own entry of the row list by the referenced row's code or name; an absent one leaves the list as it was |
| `Display.StrAll` | label_matcher.py:32 | `map(str, ...)` succeeds if and only if every entry converts, and then gives each entry's text at its own position |
| `Display.MakeData` | label_matcher.py:18-32 | the row is the record's 13 field texts in order (id, genus, epithet, type, latitude, longitude, state code, county name, locality, elevation, date, collector name, collection name, with "None" for an absent key); it fails if and only if one of those texts has a non-ASCII character |
| `Display.GridRows` | label_matcher.py:38-46 | the grid exists if and only if both records' texts are ASCII; it then has three rows of 14 cells: the header, "Current Label:" with the label's field texts, "Matching Record:" with the candidate's |
| `Display.LJust` | label_matcher.py:62 | the padded text starts with the original text, is followed only by spaces, and is exactly the requested width when the text is shorter |
| `Display.WidthIsMaximum` | label_matcher.py:50-58 | the computed column width is the length of the longest cell in that column: no cell is longer, and some cell is that long |
| `Display.WidthOfSameColumn` | label_matcher.py:50-62 | a column's width depends only on that column's cells, so padding earlier columns does not change later widths |
| `Display.MeasureColumn` | label_matcher.py:51-58 | the first row loop returns the column's width, and no cell of the column is longer |
| `Display.PadColumn` | label_matcher.py:61-62 | the second row loop pads every cell of the column to the width plus two and leaves every other cell unchanged |
| `Display.PadColumns` | label_matcher.py:50-62 | every cell of each header column becomes its original text padded to that column's original maximum length plus two; cells beyond the header's width stay unchanged; row count and row lengths are kept |
| `Display.PaddedCell` | label_matcher.py:60-62 | a padded cell is its original text followed only by spaces, and its length is exactly the column's maximum original length plus two |
| `Display.SameWidthsSameLength` | label_matcher.py:65-66 | rows whose cells have equal lengths column by column print as lines of equal length |
| `Display.PaddedColumnsAligned` | label_matcher.py:50-62 | after padding, all cells of one column have the same length on every row |
| `Display.SameOffsets` | label_matcher.py:64-66 | when cells have one length per column, the text before column k has the same length on every line, so every column starts at the same offset |
| `Display.Layout` | label_matcher.py:50-66 | each padded cell is the original cell padded to its column's widest cell plus two, each printed line is its row's cells joined, every column starts at the same offset on every line, and all lines have one length |
| `Display.RenderGrid` | label_matcher.py:35-66 | `print_grid` fails before printing anything exactly when either record has non-ASCII text; otherwise it prints three lines, each the join of its row's cells, every cell is the grid cell padded to its column's widest cell plus two, and every column starts at the same offset on every line |
| `Matching.Candidates` | label_matcher.py:82-84 | a record is a candidate if and only if it is one of the store's rows, belongs to the selected species, agrees with the label on year, month, day, state, county and collection, and has a different id from the label |
| `Matching.CandidatesDistinct` | label_matcher.py:82-84 | candidates have distinct ids, and neither the label nor any record with the label's id is ever a candidate |
| `Matching.Token` | label_matcher.py:95-98 | each option is typed as one digit from 1 to 4 |
| `Matching.OptionTexts` | label_matcher.py:105-125 | an answer is a single digit from 1 to 4 if and only if it is exactly "1", "2", "3" or "4" |
| `Matching.Decode` | label_matcher.py:100-130 | an answer selects an option if and only if it is exactly "1", "2", "3" or "4" (one digit from 1 to 4), and it then selects the option of that number |
| `Matching.DecodeToken` | label_matcher.py:95-130 | an answer selects an option if and only if it is that option's own digit |
| `Matching.Prompt` | label_matcher.py:100-130 | the retry loop stops at the first valid answer. The answers skipped before it are all invalid, and the answers read select exactly that one option. If the answers run out first, every answer read was invalid and no option is selected |
| `Matching.Apply` | label_matcher.py:104-127 | option 1: the old label is gone, the image uses the candidate, and every other record is unchanged. Option 2: the image uses the candidate and the store is unchanged, old label included. Option 3: the candidate is gone, the image is unchanged, and every other record is unchanged. Option 4 changes nothing. No option adds or alters a record |
| `Matching.CurrentRecordId` | label_matcher.py:94-115 | the record on show next to each candidate (the label, or the last candidate chosen by option 1 or 2) is the record the image refers to at that point |
| `Matching.ShowGrid` | label_matcher.py:94 | the grid for the record on show and a candidate is printed if and only if both records' texts are ASCII |
| `Matching.AllShownAt` | label_matcher.py:91-102 | every decision was taken after the grid of the then-current record and that decision's candidate was printed |
| `Matching.ResolveOnlyDeletes` | label_matcher.py:91-130 | over any number of decisions, the store only loses records; the records that remain are unchanged |
| `Matching.ImageNeverDangles` | label_matcher.py:91-130 | within one image's loop, the image always refers to a record still in the store, and that record is either the label or a candidate already decided. Every candidate not yet decided is still in the store |
| `Matching.StaleReplace` | label_matcher.py:82-116 | the candidate list is not recomputed: after option 2 points the image at a first candidate, option 1 for a second candidate deletes the first one, and the original label stays in the store unchanged |
| `Matching.DuplicateLabelReplaced` | label_matcher.py:82-130 | worked case: the duplicate is the label's only candidate; "9" followed by "1" selects option 1 once; option 1 deletes the label and points the image at the duplicate |
| `Matching.Store.Rows` | label_matcher.py:82 | the store's records, each once, in an unspecified order |
| `Matching.Store.ImagesOf` | label_matcher.py:72 | exactly the images of the species, each once, in an unspecified order |
| `Matching.Store.Resolve` | label_matcher.py:104-127 | option 1 removes exactly the image's old record from the store and points the image at the candidate; option 2 points the image at the candidate and leaves the store as it was; option 3 removes exactly the candidate and leaves the image as it was; option 4 changes neither. Every record left is unchanged, no other image changes, and no image changes species. The result equals `Apply` of the state before |
| `Matching.Store.Decide` | label_matcher.py:100-130 | reads answers up to and including the first valid one, which selects exactly one option, and applies it; if the answers run out, nothing changes |
| `Matching.Store.ResolveCandidates` | label_matcher.py:91-130 | the grid is printed before each candidate's prompt. Every candidate is decided if and only if the loop finishes. Otherwise it stopped either because the answers ran out or because the grid for the next undecided candidate could not be printed (its record and the record then on show are not all ASCII). Every decision came after its grid was printed. Unless the answers ran out, no answer is read past the last valid one. The image and store end as the decisions, applied in turn to the fixed list, make them |
| `Matching.Store.ResolveImage` | label_matcher.py:81-130 | the candidate list is computed once, from the label and store as they were before any decision, and it holds exactly the candidates, with distinct ids. The per-candidate loop is then run over that list, with the same guarantees |
| `Matching.TraceRun` | label_matcher.py:77-130 | each run of a trace is one image's resolution: the candidate list of that image's label, computed from the store the run started from, decided by answers read in order, each after its grid was shown; the image is of the species and held that label at the outset |
| `Matching.TraceLink` | label_matcher.py:77-130 | each image's loop reads the answers on from where the previous image stopped, and starts from the store the previous image left (the first from the start of the answers and the store as it was) |
| `Matching.TraceOnce` | label_matcher.py:72-77 | no image of the species is visited twice |
| `Matching.TraceComplete` | label_matcher.py:91-130 | every image visited before the last one had all of its candidates decided, and no answer was read past the last valid one |
| `Matching.Store.ResolveNext` | label_matcher.py:77-130 | one image's loop, recorded as a run: the store and the image end as the run's decisions leave them, and the run ends finished with every candidate decided, or stopped with the answers exhausted, or stopped at a grid that cannot be printed; no other image changes |
| `Matching.Store.Visit` | label_matcher.py:77-130 | an image whose label is null or gone stops the run with `LabelMissing` and changes nothing; any other image is resolved and its run appended to the trace, which keeps every guarantee of `MatchSpecies` |
| `Matching.Store.MatchSpecies` | label_matcher.py:71-134 | the images of the species are visited one at a time, each once, and `runs` records each visit as `ResolveImage` states it, reading on from the previous visit's answers and store. The store ends as the last visit left it. Only records were deleted, each visited image holds the record its visit left it, and every image not visited is unchanged. `Finished` means every image of the species was visited, the last visit decided all of its candidates, and by `TraceComplete` so did every earlier one. Otherwise the run stopped inside its last visit: `InputExhausted` when the answers ran out after the next candidate's grid was shown, and `TextNotAscii` when that candidate's grid could not be printed. `LabelMissing` names an image of the species, not visited, whose label is null or no longer in the store |
| `SpeciesName.Words` | label_matcher.py:154 | splitting a name gives non-empty words without whitespace, and no words at all exactly when the name is whitespace only |
| `SpeciesName.WordsAfterSpace` | label_matcher.py:154 | any leading whitespace character is skipped by the split |
| `SpeciesName.WordsAfterSpaces` | label_matcher.py:154 | a whole leading run of whitespace is skipped by the split |
| `SpeciesName.WordsFirst` | label_matcher.py:154 | the first word of a name sits after a run of whitespace, and is followed by nothing or by whitespace and then the remaining words: the words are maximal runs |
| `SpeciesName.ParseName` | label_matcher.py:154 | a name is accepted if and only if it splits into exactly two words, which become genus and epithet |
| `SpeciesName.ParseJoinedName` | label_matcher.py:154 | a genus and an epithet separated by any non-empty whitespace, with any whitespace before and after, are accepted and give back the same pair |
| `SpeciesName.ParseNameShape` | label_matcher.py:154 | conversely, an accepted name is whitespace, the genus, non-empty whitespace, the epithet and whitespace, in that order |
| `SpeciesName.ParseRejectsOneWord` | label_matcher.py:154-162 | a one-word name is rejected ("must be two words") |
| `SpeciesName.ParseRejectsThreeWords` | label_matcher.py:154-162 | a three-word name is rejected ("must be two words") |

## Left out

- The database layer (Django settings, the ORM, the models in `species.models`): the store is an in-memory map. `species/models.py` is not part of this model.
- `image.save(keep_old_record=...)`: saving is modelled as "the image now refers to the record" and nothing more. The save logic is in `species/models.py`, which is not part of this model.
- What the database does to images when a record they refer to is deleted (its on-delete rule is set in the models, which are not part of this model).
- All terminal input and output: the prompts, the messages, the "Image k of n" and "Match k of n" counters, and the final `print` of the grid. The operator's answers are a given sequence of strings. `Display.RenderGrid` returns the lines instead of printing them.
- Python's `str` of latitude, longitude, elevation, date and record type: these fields are kept as the text `str` gives, since nothing but the display uses them. Their text is still checked for non-ASCII characters like every other field.
- The outer `main` loop: the menu of 1 or 2, the all-species query and its ordering, the lookup of a species by genus and epithet, and the handling of a species that is not found, of a `ValueError` (a wrong word count, or a failed `str` from the grid) and of an interrupt. These are interactive orchestration over the store's own query semantics. Of `main`, only the two-word split is modelled.
- The yes/no confirmation variant of the per-candidate prompt: that script is not part of this model.
- Matching.Store.MatchSpecies: the final store is stated through the recorded runs rather than as one function of the initial store. Each image's candidates depend on the store's unspecified order of images and records, and on the decisions about earlier images. The per-image effect is stated exactly by `Matching.Store.ResolveImage`.
