/**
 * Rows as Python's `csv.DictReader` hands them to the scripts: a map from column name to value.
 * A line with fewer fields than the header still has every column, holding the filler `None`.
 */
module Tables {
  import opened Wrappers
  import opened Sequences
  import opened Text

  datatype Cell = Field(text: string) | Filler

  type DictRow = map<string, Cell>

  /** `row.get(key) or ""`: the text of the column, and `""` for no column or the filler. */
  function TextOrEmpty(row: DictRow, key: string): string {
    if key in row && row[key].Field? then row[key].text else ""
  }

  /** `row.get(key, "")`: `None` stands for the filler, which Python returns as is. */
  function GetOrDefault(row: DictRow, key: string): Option<string> {
    if key !in row then Some("")
    else if row[key].Field? then Some(row[key].text)
    else None
  }

  /** `(row.get(key) or "").strip().upper()`, as both scripts read a motif. */
  function UpperText(row: DictRow, key: string): string {
    Upper(Strip(TextOrEmpty(row, key)))
  }

  /** `int(row.get(key, ""))` with every failure, the filler included, turned into `None`. */
  function IntCell(row: DictRow, key: string): Option<int> {
    IntOrNone(GetOrDefault(row, key))
  }

  /** `[c for c in needed if c not in have]`. */
  function MissingColumns(needed: seq<string>, have: seq<string>): (r: seq<string>)
    ensures forall c :: c in r <==> c in needed && c !in have
    ensures IsSubsequence(r, needed)
    decreases |needed|
  {
    if needed == [] then []
    else
      var last := needed[|needed| - 1];
      var prev := MissingColumns(needed[..|needed| - 1], have);
      assert forall c :: c in needed <==> c in needed[..|needed| - 1] || c == last;
      if last in have then prev
      else
        var r := prev + [last];
        assert r[..|r| - 1] == prev;
        r
  }
}
