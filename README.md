# Microsatellite naming and filtering, modelled in Dafny

This project models the two Python scripts of a microsatellite primer-design
pipeline.

- `add_msat_name.py` gives every primer row a canonical locus name.
  - It first loads an SSRMMD `.compare` table into an index from locus number to
    `(motif, rmin, rmax)`.
  - Pass 1 reads the primer table and lists the distinct loci in order of first
    appearance, each with its base name `<motif>(<rmin>-<rmax>)` or `NA`.
  - Pass 2 numbers the loci that share a base name: `<base>.1`, `<base>.2`, …
  - Pass 3 writes every row with the name of its locus inserted in a new
    `microsatellite_name` column, right after `id`.
- `ssrmmd_filter.py` keeps the `.compare` rows that describe a polymorphic,
  clean, long enough microsatellite, and writes them unchanged under the input
  header.

Modules, one file each:

| file | module | what it holds |
|---|---|---|
| `wrappers.dfy` | `Wrappers` | `Option` and `Result` |
| `sequences.dfy` | `Sequences` | no duplicates, subsequences, first index, insertion at a position |
| `text.dfy` | `Text` | Python's `strip` (full `isspace` set), ASCII `upper`/`lower`, `split`, `int(str)`, `str(int)` |
| `tables.dfy` | `Tables` | `csv.DictReader` rows as maps from column to cell; the missing-column list |
| `compare_index.dfy` | `CompareIndex` | `load_compare` |
| `locus_naming.dfy` | `LocusNaming` | `extract_locus_num`, the header checks and the three passes of `main` |
| `compare_filter.dfy` | `CompareFilter` | `is_at_only`, `is_valid_dna`, `to_int_or_none`, the allowed-length parsing, the header check and the row filter |

A `csv.DictReader` row is a `map<string, Cell>`. A cell is either `Field(text)`
or `Filler`. `Filler` is the `None` that `DictReader` uses for the columns a
short line does not reach. A `csv.reader` row (the primer table) is a
`seq<string>`.

Each loop of the scripts is a `method`. Its `ensures` equates the result with a
recursive specification function over the inputs. The properties the scripts
promise are lemmas about those functions.

## Model

| member | source | states |
|---|---|---|
| `CompareIndex.MakeRecord` | add_msat_name.py:56-58 | `rmin` is the smaller and `rmax` the larger of the two repeat counts, with ties included; the motif is kept |
| `CompareIndex.MakeRecordSymmetric` | add_msat_name.py:56-57 | swapping the two genomes' repeat counts gives the same record |
| `CompareIndex.IndexKeys` | add_msat_name.py:44-58 | a number is in the index exactly when it is non-blank and some row has it as its stripped `number` with both repeat counts parsing as integers (the filler does not parse) |
| `CompareIndex.IndexRecord` | add_msat_name.py:44-58 | the record under a number comes from the last row that has that number and two integer counts: genome 1's stripped, upper-cased motif unless that is blank, else genome 2's, and the smaller and larger of the two counts |
| `CompareIndex.LastWins` | add_msat_name.py:58 | with duplicate numbers, the index holds the record of the last row defining the number |
| `CompareIndex.IndexRecords` | add_msat_name.py:44-58 | every key of the index is non-blank and every record has `rmin <= rmax` |
| `CompareIndex.LoadOutcome` | add_msat_name.py:59-61 | with all needed columns present, loading fails exactly when no row contributes; on success the result is the index |
| `CompareIndex.LoadCompare` | add_msat_name.py:35-61 | the loop gives `Load`: an error for a missing header or missing columns (with both column lists), for an empty index, and otherwise the last-wins index |
| `Tables.MissingColumns` | add_msat_name.py:41 | a column is reported missing exactly when it is needed and not in the header, in the order of the needed list |
| `Text.StripSlice` | add_msat_name.py:45 | `strip()` returns a slice of the input with only whitespace outside it |
| `Text.Strip` | add_msat_name.py:45 | the result neither starts nor ends with whitespace, and it is empty exactly when the input is all whitespace |
| `LocusNaming.LeadingDigitsSpec` | add_msat_name.py:65 | the leading digits are a prefix of the input, all ASCII digits, and not followed by another digit |
| `LocusNaming.ExtractLocusNumSpec` | add_msat_name.py:63-66 | the locus number is the maximal run of digits right after the leading whitespace, and empty when no digit follows |
| `LocusNaming.ExtractIgnoresStrip` | add_msat_name.py:105-106 | stripping the id before the extraction does not change the locus number |
| `LocusNaming.Pad` | add_msat_name.py:103-104 | a short row is extended with empty cells to the header's width; other cells and longer rows are unchanged |
| `LocusNaming.KeysAt` | add_msat_name.py:102-106 | key `i` is the locus key of data row `i` |
| `LocusNaming.FirstSeenSpec` | add_msat_name.py:107-112 | the loci list has no duplicates and holds exactly the non-empty keys |
| `LocusNaming.FirstSeenOrder` | add_msat_name.py:109-112 | loci are listed in the order of their first row |
| `LocusNaming.BaseName` | add_msat_name.py:115 | a base name is non-empty, ends in `)` and is never `NA` |
| `LocusNaming.BaseMapLookup` | add_msat_name.py:113-117 | exactly the listed loci get a base name: their record's base name, or `NA` without a record |
| `LocusNaming.DiscoverLoci` | add_msat_name.py:96-118 | Pass 1 gives the first-seen loci and their base names; a locus is reported missing exactly when it has no record |
| `LocusNaming.AssignCounts` | add_msat_name.py:121-130 | `NA` never gets a counter; every other base's counter is the number of loci with that base |
| `LocusNaming.AssignDomain` | add_msat_name.py:123-130 | every locus, and nothing else, gets a final name |
| `LocusNaming.AssignRank` | add_msat_name.py:123-130 | each locus is named `NA` if its base is `NA`; otherwise it is `<base>.<k>`, where `k` is the number of loci up to and including it that share its base |
| `LocusNaming.FirstOfBaseGetsOne` | add_msat_name.py:128-130 | the first locus with a base gets `<base>.1` |
| `LocusNaming.NextOfBaseGetsNext` | add_msat_name.py:128-130 | the next locus with the same base gets the next suffix: no gaps and no repeats |
| `LocusNaming.SuffixedIsNA` | add_msat_name.py:124-130 | a final name is `NA` exactly when the base is `NA` |
| `LocusNaming.AssignDistinct` | add_msat_name.py:123-130 | two different loci never share a name other than `NA` |
| `LocusNaming.AssignNames` | add_msat_name.py:120-130 | the Pass 2 loop gives the final names of `Assign` |
| `LocusNaming.RewriteRows` | add_msat_name.py:132-141 | Pass 3 writes, for every data row, the padded row with its locus name (`NA` by default) inserted after the id |
| `LocusNaming.AddNames` | add_msat_name.py:77-141 | the primer-table half of `main` gives `Named`: the three error cases, or the header with the new column and the named rows |
| `LocusNaming.Run` | add_msat_name.py:74-141 | the comparison table is loaded first and its errors win; then the primer table is named with the loaded index |
| `LocusNaming.NamedShape` | add_msat_name.py:94-141 | the output has one row per input line; its header has `microsatellite_name` right after `id`; each data row is the padded input row with one cell added right after the id, and every other cell the input's, unchanged and in order |
| `LocusNaming.NamedLine` | add_msat_name.py:134-141 | output row `j` is input line `j`, padded, with one cell added right after the id and every other cell unchanged |
| `LocusNaming.NamedCell` | add_msat_name.py:137-140 | the cell after the id in output row `i` is the name of input row `i`'s locus |
| `LocusNaming.NameRowsCell` | add_msat_name.py:134-141 | a named row has one cell more than the padded row, and that cell holds the row's locus name |
| `LocusNaming.NameOfLocus` | add_msat_name.py:113-130 | a listed locus with a record gets its ranked base name, never `NA`; one without a record gets `NA` |
| `LocusNaming.NameOfKey` | add_msat_name.py:107-139 | a key's name is `NA` exactly when the key is empty or has no record; otherwise it is the ranked base name |
| `LocusNaming.RowName` | add_msat_name.py:137-140 | a row's name is `NA` exactly when its id yields no locus number or the number has no record; otherwise it is the ranked base name |
| `LocusNaming.SameLocusSameName` | add_msat_name.py:139 | rows with the same locus key get the same name |
| `LocusNaming.DistinctLociDistinctNames` | add_msat_name.py:120-139 | rows with different locus keys never share a name other than `NA` |
| `CompareFilter.AtOnlyChars` | ssrmmd_filter.py:50-52 | a motif is AT-only exactly when each character is `A`, `a`, `T` or `t`, so the empty motif is AT-only |
| `CompareFilter.ValidDnaChars` | ssrmmd_filter.py:54-56 | a motif is valid DNA exactly when each character is one of `ACGTacgt` |
| `CompareFilter.AtOnlyIsValidDna` | ssrmmd_filter.py:50-56 | the empty motif is AT-only, and an AT-only motif is valid DNA |
| `Text.IntOrNoneSpec` | ssrmmd_filter.py:58-62 | a formatted integer converts back; `None` and blank text give `None` |
| `CompareFilter.ShortRowCrashes` | ssrmmd_filter.py:122 | the polymorphism test as written fails on a line too short to reach the column |
| `CompareFilter.PolymorphismCorrected` | ssrmmd_filter.py:122 | the corrected reading agrees with the script wherever the script does not crash, and reads a short line as not polymorphic |
| `CompareFilter.KeptSpec` | ssrmmd_filter.py:118-153 | the kept rows are a subsequence of the input, no longer than it, holding each input row that passes every check as often as the input does, and no other row |
| `CompareFilter.FilterRows` | ssrmmd_filter.py:118-153 | the loop keeps exactly the rows of `Kept`, counting all rows in `total` and the kept ones in `kept` |
| `CompareFilter.LengthsFromSucceeds` | ssrmmd_filter.py:78-86 | parsing the allowed lengths succeeds exactly when every token is blank or an integer once stripped |
| `CompareFilter.LengthsFromValues` | ssrmmd_filter.py:78-86 | on success the set holds exactly the integers of the non-blank tokens |
| `CompareFilter.LengthsFromFirstBad` | ssrmmd_filter.py:83-86 | on failure the error names the first bad token, stripped |
| `CompareFilter.ParseAllowedLengths` | ssrmmd_filter.py:77-86 | the loop over the comma-separated tokens gives `AllowedLengths`, stopping at the first non-integer |
| `Text.SplitJoin` | ssrmmd_filter.py:79 | no piece of the split holds the separator, and joining the pieces with it restores the input |
| `CompareFilter.ErrorsPrecedeRows` | ssrmmd_filter.py:77-109 | every error is decided before any row is read; a missing required column is always reported, with the missing and the present columns |
| `CompareFilter.FilteredOutput` | ssrmmd_filter.py:111-153 | an accepted run writes the input header and every passing row as often as it occurs, in input order and nothing else; `kept` is the number written and `total` the number read |
| `CompareFilter.FilterCompare` | ssrmmd_filter.py:77-153 | the program gives `Filtered`: the lengths are read first, then the header is checked, then the rows are filtered |

## Left out

- The command lines (`argparse`), the file reading and writing, and the default output paths are left out. The model works on the parsed header and rows and on the option values, passed as parameters.
- The messages printed to standard error are left out, including the count of loci without a record and the `kept / total` summary. The model returns the missing set and the two counts instead.
- Tab-separated parsing and quoting are left out. A field is a string after `csv` has split the line.
- Lines with more fields than the header are left out: the model's rows have no extra fields. `DictReader` gathers the extra fields under the key `None`. `load_compare` never reads them. In `ssrmmd_filter.py`, a passing line with extra fields makes `writer.writerow` (ssrmmd_filter.py:152) raise `ValueError`, because the `DictWriter` of line 115 rejects keys outside its header. The script then stops. The model does not capture that stop.
- Case mapping covers ASCII letters only. Python's full Unicode `upper`/`lower` is not modelled.
- `int()` is modelled for ASCII decimal literals with an optional sign and surrounding whitespace. Underscore separators and non-ASCII digits are left out.
- The `\d` of `extract_locus_num` is modelled as the ASCII digits. Python also matches other Unicode decimal digits.
- A missing header (`reader.fieldnames` is `None`) makes both scripts raise a `TypeError` in the column check. The model returns a `NoHeader` error in that place.
- Output already written before a crash is left out. The row filter is modelled with the corrected polymorphism test (see Findings), so it never crashes.
- Duplicate numbers in the `.compare` table keep the last row's record, as the script does. `CompareIndex.LastWins` states this; whether it is intended is not decided here.
- `force_tsv_extension.py` is not part of this model.

## Findings

| source | as written | input that shows it | evidently intended | confidence | as-written member | corrected member |
|---|---|---|---|---|---|---|
| ssrmmd_filter.py:122 | the polymorphism value is read with a default of `""` and then stripped | a data line with fewer fields than the header, which ends before the `polymorphism` column: `DictReader` gives `None` there, not the default, and `.strip()` on `None` raises `AttributeError` | treat the missing value as empty, so the row is dropped as not polymorphic | not executed | `CompareFilter.ShortRowCrashes` | `CompareFilter.PolymorphismCorrected` |
