/**
 * The comparison index of `add_msat_name.py` (`load_compare`): one record
 * `(motif, rmin, rmax)` per locus number of a `.compare` table.
 */
module CompareIndex {
  import opened Wrappers
  import opened Text
  import opened Tables

  /** The repeat descriptor of one locus. */
  datatype Record = Record(motif: string, rmin: int, rmax: int)

  /** The columns the loader reads; each must be in the header. */
  const NEEDED: seq<string> :=
    ["number", "fasta1_motif", "fasta2_motif", "fasta1_repeat_number", "fasta2_repeat_number"]

  datatype LoadError =
    | NoHeader                                          // the file has no header line at all
    | MissingColumns(missing: seq<string>, have: seq<string>)
    | NoRowsLoaded

  /** The record for two repeat counts, whichever genome has the smaller one. */
  function MakeRecord(motif: string, rep1: int, rep2: int): (rec: Record)
    ensures rec.motif == motif && rec.rmin <= rec.rmax
    ensures rec.rmin <= rep1 && rec.rmin <= rep2 && (rec.rmin == rep1 || rec.rmin == rep2)
    ensures rec.rmax >= rep1 && rec.rmax >= rep2 && (rec.rmax == rep1 || rec.rmax == rep2)
  {
    Record(motif, if rep1 <= rep2 then rep1 else rep2, if rep2 >= rep1 then rep2 else rep1)
  }

  /** Swapping the two genomes' repeat counts gives the same record. */
  lemma MakeRecordSymmetric(motif: string, rep1: int, rep2: int)
    ensures MakeRecord(motif, rep1, rep2) == MakeRecord(motif, rep2, rep1)
  {
  }

  /** The motif of a row: genome 1's, trimmed and upper-cased, unless that is blank; then genome 2's. */
  function Motif(row: DictRow): string {
    if |UpperText(row, "fasta1_motif")| > 0 then UpperText(row, "fasta1_motif") else UpperText(row, "fasta2_motif")
  }

  /** What one row contributes to the index: its trimmed number and record, or nothing. */
  function Entry(row: DictRow): Option<(string, Record)> {
    var num := Strip(TextOrEmpty(row, "number"));
    var rep1 := IntCell(row, "fasta1_repeat_number");
    var rep2 := IntCell(row, "fasta2_repeat_number");
    if |num| == 0 || rep1.None? || rep2.None? then None
    else Some((num, MakeRecord(Motif(row), rep1.value, rep2.value)))
  }

  /**
   * A row is left out exactly when its trimmed number is blank or a repeat count is no integer;
   * otherwise it is keyed by its trimmed number.
   */
  lemma EntryContents(row: DictRow)
    ensures Entry(row).Some? <==>
      && |Strip(TextOrEmpty(row, "number"))| > 0
      && IntCell(row, "fasta1_repeat_number").Some?
      && IntCell(row, "fasta2_repeat_number").Some?
    ensures Entry(row).Some? ==>
      && Entry(row).value.0 == Strip(TextOrEmpty(row, "number"))
      && Entry(row).value.1 == MakeRecord(Motif(row), IntCell(row, "fasta1_repeat_number").value,
                                          IntCell(row, "fasta2_repeat_number").value)
  {
  }

  /** What each row contributes, in row order. */
  function Entries(rows: seq<DictRow>): (es: seq<Option<(string, Record)>>)
    ensures |es| == |rows|
    ensures forall i :: 0 <= i < |rows| ==> es[i] == Entry(rows[i])
    decreases |rows|
  {
    if |rows| == 0 then [] else Entries(rows[..|rows| - 1]) + [Entry(rows[|rows| - 1])]
  }

  /** A dictionary filled from `(key, value)` pairs in order, skipping the absent ones; a later pair overwrites. */
  function Overwrite<K(==), V>(es: seq<Option<(K, V)>>): map<K, V>
    decreases |es|
  {
    if |es| == 0 then map[]
    else
      var m := Overwrite(es[..|es| - 1]);
      match es[|es| - 1]
      case Some(e) => m[e.0 := e.1]
      case None => m
  }

  /** Position `i` supplies a pair under key `k`. */
  predicate Supplies<K(==), V>(es: seq<Option<(K, V)>>, i: int, k: K)
    requires 0 <= i < |es|
  {
    es[i].Some? && es[i].value.0 == k
  }

  /** A key is in the dictionary exactly when some position supplies it. */
  lemma {:induction false} OverwriteKeys<K, V>(es: seq<Option<(K, V)>>, k: K)
    ensures k in Overwrite(es) <==> exists i :: 0 <= i < |es| && Supplies(es, i, k)
    decreases |es|
  {
    if es != [] {
      var init := es[..|es| - 1];
      OverwriteKeys(init, k);
      if !Supplies(es, |es| - 1, k) {
        forall i | 0 <= i < |init|
          ensures Supplies(init, i, k) == Supplies(es, i, k)
        {
          assert init[i] == es[i];
        }
      }
    }
  }

  /** Last write wins: the value under a key is the one of the last position supplying it. */
  lemma {:induction false} OverwriteLast<K, V>(es: seq<Option<(K, V)>>, i: nat)
    requires i < |es| && es[i].Some?
    requires forall j :: i < j < |es| ==> !Supplies(es, j, es[i].value.0)
    ensures es[i].value.0 in Overwrite(es) && Overwrite(es)[es[i].value.0] == es[i].value.1
    decreases |es|
  {
    if i < |es| - 1 {
      var init := es[..|es| - 1];
      assert init[i] == es[i];
      var k := es[i].value.0;
      forall j | i < j < |init|
        ensures !Supplies(init, j, k)
      {
        assert init[j] == es[j];
        assert !Supplies(es, j, k);
      }
      OverwriteLast(init, i);
      assert !Supplies(es, |es| - 1, k);
    }
  }

  /** Every value in the dictionary was supplied at some position. */
  lemma {:induction false} OverwriteValues<K, V>(es: seq<Option<(K, V)>>, k: K)
    requires k in Overwrite(es)
    ensures exists i :: 0 <= i < |es| && es[i] == Some((k, Overwrite(es)[k]))
    decreases |es|
  {
    var init := es[..|es| - 1];
    var last := es[|es| - 1];
    if last.Some? && last.value.0 == k {
      assert es[|es| - 1] == Some((k, Overwrite(es)[k]));
    } else {
      OverwriteValues(init, k);
      var i :| 0 <= i < |init| && init[i] == Some((k, Overwrite(init)[k]));
      assert es[i] == init[i];
    }
  }

  /** The dictionary stays empty exactly when no position supplies a pair. */
  lemma {:induction false} OverwriteEmpty<K, V>(es: seq<Option<(K, V)>>)
    ensures Overwrite(es) == map[] <==> forall i :: 0 <= i < |es| ==> es[i].None?
    decreases |es|
  {
    if es != [] {
      var init := es[..|es| - 1];
      OverwriteEmpty(init);
      var last := es[|es| - 1];
      if last.Some? {
        assert last.value.0 in Overwrite(es);
      } else {
        assert forall i :: 0 <= i < |init| ==> init[i] == es[i];
      }
    }
  }

  /** Reading one more row updates the dictionary with that row's entry, if any. */
  lemma EntriesSnoc(rows: seq<DictRow>, i: nat)
    requires i < |rows|
    ensures Overwrite(Entries(rows[..i + 1])) ==
      match Entry(rows[i])
      case Some(e) => Overwrite(Entries(rows[..i]))[e.0 := e.1]
      case None => Overwrite(Entries(rows[..i]))
  {
    var es := Entries(rows[..i + 1]);
    assert es[..i] == Entries(rows[..i]);
    assert es[i] == Entry(rows[i]);
  }

  /** The comparison index: the rows' entries, a later row overwriting an earlier one with the same key. */
  function Index(rows: seq<DictRow>): map<string, Record> {
    Overwrite(Entries(rows))
  }

  /** The row contributes a record to the index. */
  predicate Contributes(row: DictRow) {
    Entry(row).Some?
  }

  /** The row contributes a record under key `k`. */
  predicate Defines(row: DictRow, k: string) {
    Contributes(row) && Entry(row).value.0 == k
  }

  /**
   * A number is in the index exactly when it is non-blank and some row has it as its
   * stripped `number`, with both repeat counts integers.
   */
  lemma IndexKeys(rows: seq<DictRow>, k: string)
    ensures k in Index(rows) <==>
      |k| > 0 && exists i :: 0 <= i < |rows| && Strip(TextOrEmpty(rows[i], "number")) == k
                             && IntCell(rows[i], "fasta1_repeat_number").Some?
                             && IntCell(rows[i], "fasta2_repeat_number").Some?
  {
    var es := Entries(rows);
    OverwriteKeys(es, k);
    forall i | 0 <= i < |rows|
      ensures Supplies(es, i, k) <==>
        |k| > 0 && Strip(TextOrEmpty(rows[i], "number")) == k
        && IntCell(rows[i], "fasta1_repeat_number").Some? && IntCell(rows[i], "fasta2_repeat_number").Some?
    {
      EntryContents(rows[i]);
    }
  }

  /** On duplicate numbers the last row wins. */
  lemma LastWins(rows: seq<DictRow>, i: nat, k: string, rec: Record)
    requires i < |rows| && Entry(rows[i]) == Some((k, rec))
    requires forall j :: i < j < |rows| ==> !Defines(rows[j], k)
    ensures k in Index(rows) && Index(rows)[k] == rec
  {
    var es := Entries(rows);
    forall j | i < j < |rows|
      ensures !Supplies(es, j, k)
    {
      assert es[j] == Entry(rows[j]);
      assert !Defines(rows[j], k);
    }
    OverwriteLast(es, i);
  }

  /**
   * The record under a number is read from the last row that has the number and two
   * integer repeat counts: genome 1's stripped, upper-cased motif unless that is blank,
   * else genome 2's, and the smaller and the larger of the two counts.
   */
  lemma IndexRecord(rows: seq<DictRow>, i: nat, k: string)
    requires i < |rows| && |k| > 0 && Strip(TextOrEmpty(rows[i], "number")) == k
    requires IntCell(rows[i], "fasta1_repeat_number").Some? && IntCell(rows[i], "fasta2_repeat_number").Some?
    requires forall j :: i < j < |rows| ==>
      !(&& Strip(TextOrEmpty(rows[j], "number")) == k
        && IntCell(rows[j], "fasta1_repeat_number").Some?
        && IntCell(rows[j], "fasta2_repeat_number").Some?)
    ensures k in Index(rows)
    ensures Index(rows)[k].motif
         == if |UpperText(rows[i], "fasta1_motif")| > 0 then UpperText(rows[i], "fasta1_motif")
            else UpperText(rows[i], "fasta2_motif")
    ensures var r1, r2 := IntCell(rows[i], "fasta1_repeat_number").value, IntCell(rows[i], "fasta2_repeat_number").value;
      Index(rows)[k].rmin == (if r1 < r2 then r1 else r2) && Index(rows)[k].rmax == (if r1 < r2 then r2 else r1)
  {
    EntryContents(rows[i]);
    forall j | i < j < |rows|
      ensures !Defines(rows[j], k)
    {
      EntryContents(rows[j]);
    }
    LastWins(rows, i, k, Entry(rows[i]).value.1);
  }

  /** Every record of the index has a non-blank key and `rmin <= rmax`. */
  lemma IndexRecords(rows: seq<DictRow>, k: string)
    requires k in Index(rows)
    ensures |k| > 0 && Index(rows)[k].rmin <= Index(rows)[k].rmax
  {
    var es := Entries(rows);
    OverwriteValues(es, k);
    var i :| 0 <= i < |es| && es[i] == Some((k, Index(rows)[k]));
    EntryContents(rows[i]);
  }

  /** `load_compare`: the index of the rows, or why the script stops. */
  function Load(fieldnames: Option<seq<string>>, rows: seq<DictRow>): Result<map<string, Record>, LoadError> {
    if fieldnames.None? then Failure(NoHeader)
    else if |Tables.MissingColumns(NEEDED, fieldnames.value)| > 0 then
      Failure(LoadError.MissingColumns(Tables.MissingColumns(NEEDED, fieldnames.value), fieldnames.value))
    else if Index(rows) == map[] then Failure(NoRowsLoaded)
    else Success(Index(rows))
  }

  /** With every needed column present, loading fails exactly when no row contributes a record. */
  lemma LoadOutcome(fieldnames: Option<seq<string>>, rows: seq<DictRow>)
    requires fieldnames.Some? && |Tables.MissingColumns(NEEDED, fieldnames.value)| == 0
    ensures Load(fieldnames, rows).Failure? <==> forall i :: 0 <= i < |rows| ==> !Contributes(rows[i])
    ensures Load(fieldnames, rows).Success? ==> Load(fieldnames, rows).value == Index(rows)
  {
    var es := Entries(rows);
    OverwriteEmpty(es);
    forall i | 0 <= i < |rows|
      ensures es[i].Some? == Contributes(rows[i])
    {
    }
  }

  /** The loop of `load_compare`, filling the dictionary row by row. */
  method LoadCompare(fieldnames: Option<seq<string>>, rows: seq<DictRow>)
    returns (r: Result<map<string, Record>, LoadError>)
    ensures r == Load(fieldnames, rows)
  {
    if fieldnames.None? {
      return Failure(NoHeader);
    }
    var miss := Tables.MissingColumns(NEEDED, fieldnames.value);
    if |miss| > 0 {
      return Failure(LoadError.MissingColumns(miss, fieldnames.value));
    }
    var comp: map<string, Record> := map[];
    for i := 0 to |rows|
      invariant comp == Index(rows[..i])
    {
      EntriesSnoc(rows, i);
      var row := rows[i];
      var num := Strip(TextOrEmpty(row, "number"));
      if |num| == 0 {
        continue;
      }
      var motif := Motif(row);
      var rep1 := IntCell(row, "fasta1_repeat_number");
      var rep2 := IntCell(row, "fasta2_repeat_number");
      if rep1.None? || rep2.None? {
        continue;
      }
      comp := comp[num := MakeRecord(motif, rep1.value, rep2.value)];
    }
    assert rows[..|rows|] == rows;
    if comp == map[] {
      return Failure(NoRowsLoaded);
    }
    return Success(comp);
  }
}
