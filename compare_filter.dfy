/**
 * `ssrmmd_filter.py`: keeps the rows of an SSRMMD `.compare` table that describe a
 * polymorphic locus with one clean motif of an allowed length, enough repeats in both
 * genomes and, by default, not made of A and T alone. Kept rows are written unchanged,
 * in input order, under the input header.
 */
module CompareFilter {
  import opened Wrappers
  import opened Sequences
  import opened Text
  import opened Tables

  /** The columns the input header must have. */
  const REQUIRED_COLUMNS: seq<string> := [
    "number",
    "fasta1_id", "fasta1_motif", "fasta1_repeat_number", "fasta1_start", "fasta1_end",
    "fasta2_id", "fasta2_motif", "fasta2_repeat_number", "fasta2_start", "fasta2_end",
    "fasta1_left_fs", "fasta1_left_fs_length",
    "fasta2_left_distance(LD)", "fasta2_left_identity(NW)",
    "fasta1_right_fs", "fasta1_right_fs_length",
    "fasta2_right_distance(LD)", "fasta2_right_identity(NW)",
    "polymorphism"
  ]

  /** The default of `--allowed-motif-lengths`. */
  const DEFAULT_ALLOWED_LENGTHS: string := "2,3,4"
  /** The default of `--min-repeats`. */
  const DEFAULT_MIN_REPEATS: int := 5

  // ---------------------------------------------------------------------------
  // Motif predicates
  // ---------------------------------------------------------------------------

  /** The characters of the upper-cased motif are all among `A`, `T`. */
  predicate IsAtOnly(motif: string) {
    (set c | c in Upper(motif)) <= {'A', 'T'}
  }

  /** The characters of the upper-cased motif are all among `A`, `C`, `G`, `T`. */
  predicate IsValidDna(motif: string) {
    (set c | c in Upper(motif)) <= {'A', 'C', 'G', 'T'}
  }

  /** Upper-casing keeps the positions of a string. */
  lemma UpperAt(s: string, i: nat)
    requires i < |s|
    ensures |Upper(s)| == |s| && Upper(s)[i] == UpperChar(s[i])
  {
  }

  /** Which characters upper-case to each DNA letter. */
  lemma UpperCharDna(c: char)
    ensures UpperChar(c) == 'A' <==> c == 'A' || c == 'a'
    ensures UpperChar(c) == 'C' <==> c == 'C' || c == 'c'
    ensures UpperChar(c) == 'G' <==> c == 'G' || c == 'g'
    ensures UpperChar(c) == 'T' <==> c == 'T' || c == 't'
  {
  }

  /** A motif is AT-only exactly when each of its characters is `A`, `a`, `T` or `t`. */
  lemma AtOnlyChars(motif: string)
    ensures IsAtOnly(motif) <==> forall i :: 0 <= i < |motif| ==> motif[i] in {'A', 'a', 'T', 't'}
  {
    var u := Upper(motif);
    if IsAtOnly(motif) {
      forall i | 0 <= i < |motif| ensures motif[i] in {'A', 'a', 'T', 't'} {
        UpperAt(motif, i);
        var chars := (set c | c in u);
        assert chars <= {'A', 'T'} && u[i] in chars;
        assert u[i] in {'A', 'T'};
        UpperCharDna(motif[i]);
      }
    } else {
      var c :| c in u && c !in {'A', 'T'};
      var i :| 0 <= i < |u| && u[i] == c;
      UpperAt(motif, i);
      UpperCharDna(motif[i]);
    }
  }

  /** A motif is valid DNA exactly when each of its characters is one of `ACGTacgt`. */
  lemma ValidDnaChars(motif: string)
    ensures IsValidDna(motif) <==> forall i :: 0 <= i < |motif| ==> motif[i] in {'A', 'a', 'C', 'c', 'G', 'g', 'T', 't'}
  {
    var u := Upper(motif);
    if IsValidDna(motif) {
      forall i | 0 <= i < |motif| ensures motif[i] in {'A', 'a', 'C', 'c', 'G', 'g', 'T', 't'} {
        UpperAt(motif, i);
        var chars := (set c | c in u);
        assert chars <= {'A', 'C', 'G', 'T'} && u[i] in chars;
        assert u[i] in {'A', 'C', 'G', 'T'};
        UpperCharDna(motif[i]);
      }
    } else {
      var c :| c in u && c !in {'A', 'C', 'G', 'T'};
      var i :| 0 <= i < |u| && u[i] == c;
      UpperAt(motif, i);
      UpperCharDna(motif[i]);
    }
  }

  /** The empty motif is AT-only, and every AT-only motif is valid DNA. */
  lemma AtOnlyIsValidDna(motif: string)
    ensures IsAtOnly("")
    ensures IsAtOnly(motif) ==> IsValidDna(motif)
  {
    assert (set c | c in Upper("")) == {};
  }

  // ---------------------------------------------------------------------------
  // Reading one row
  // ---------------------------------------------------------------------------

  /** Why `str.strip` cannot run. */
  datatype Crash = StripOnNone

  /**
   * The polymorphism test as the script writes it: `row.get("polymorphism", "")` gives
   * the filler `None` on a short line, and calling `.strip()` on it fails.
   */
  function PolymorphismAsWritten(row: DictRow): Result<string, Crash> {
    match GetOrDefault(row, "polymorphism")
    case None => Failure(StripOnNone)
    case Some(t) => Success(Lower(Strip(t)))
  }

  /** The corrected reading: a missing value reads as empty, so the row is not polymorphic. */
  function PolymorphismField(row: DictRow): string {
    Lower(Strip(TextOrEmpty(row, "polymorphism")))
  }

  /** A line too short to reach the `polymorphism` column makes the script stop. */
  lemma ShortRowCrashes()
    ensures PolymorphismAsWritten(map["polymorphism" := Filler]) == Failure(StripOnNone)
  {
  }

  /**
   * The corrected reading agrees with the script wherever the script does not crash,
   * and reads a short line as not polymorphic.
   */
  lemma PolymorphismCorrected(row: DictRow)
    ensures PolymorphismAsWritten(row).Success? ==> PolymorphismAsWritten(row).value == PolymorphismField(row)
    ensures PolymorphismAsWritten(row).Failure? <==> "polymorphism" in row && row["polymorphism"] == Filler
    ensures PolymorphismAsWritten(row).Failure? ==> PolymorphismField(row) != "yes"
  {
    if PolymorphismAsWritten(row).Failure? {
      assert Strip("") == "" && Lower("") == "";
    }
  }

  // ---------------------------------------------------------------------------
  // The row filter
  // ---------------------------------------------------------------------------

  /** The command-line settings that steer the filter. */
  datatype Config = Config(allowedLengths: set<int>, minRepeats: int, keepAtOnly: bool)

  /** Every check a row must pass to be written. */
  predicate Passes(row: DictRow, cfg: Config) {
    PolymorphismField(row) == "yes"
    && |UpperText(row, "fasta1_motif")| > 0 && |UpperText(row, "fasta2_motif")| > 0
    && UpperText(row, "fasta1_motif") == UpperText(row, "fasta2_motif")
    && IsValidDna(UpperText(row, "fasta1_motif"))
    && |UpperText(row, "fasta1_motif")| in cfg.allowedLengths
    && IntCell(row, "fasta1_repeat_number").Some? && IntCell(row, "fasta2_repeat_number").Some?
    && IntCell(row, "fasta1_repeat_number").value >= cfg.minRepeats
    && IntCell(row, "fasta2_repeat_number").value >= cfg.minRepeats
    && (cfg.keepAtOnly || !IsAtOnly(UpperText(row, "fasta1_motif")))
  }

  /** The rows that pass, in input order. */
  function Kept(rows: seq<DictRow>, cfg: Config): seq<DictRow> {
    if |rows| == 0 then []
    else
      var prev := Kept(rows[..|rows| - 1], cfg);
      if Passes(rows[|rows| - 1], cfg) then prev + [rows[|rows| - 1]] else prev
  }

  /**
   * The kept rows are the input with the failing rows left out: a subsequence, no
   * longer than the input, holding every input row that passes as often as the input
   * does, and no other row.
   */
  lemma {:induction false} KeptSpec(rows: seq<DictRow>, cfg: Config)
    ensures IsSubsequence(Kept(rows, cfg), rows)
    ensures |Kept(rows, cfg)| <= |rows|
    ensures forall r :: r in Kept(rows, cfg) <==> r in rows && Passes(r, cfg)
    ensures forall r :: multiset(Kept(rows, cfg))[r] == if Passes(r, cfg) then multiset(rows)[r] else 0
  {
    if |rows| > 0 {
      var init := rows[..|rows| - 1];
      var prev := Kept(init, cfg);
      KeptSpec(init, cfg);
      assert rows == init + [rows[|rows| - 1]];
      assert multiset(rows) == multiset(init) + multiset{rows[|rows| - 1]};
      if Passes(rows[|rows| - 1], cfg) {
        assert (prev + [rows[|rows| - 1]])[..|prev|] == prev;
      } else {
        SubsequenceSnoc(prev, init, rows[|rows| - 1]);
      }
    }
  }

  /** The main loop: counts the rows and keeps those that pass, checking in the script's order. */
  method FilterRows(rows: seq<DictRow>, cfg: Config) returns (out: seq<DictRow>, total: nat, kept: nat)
    ensures out == Kept(rows, cfg)
    ensures total == |rows| && kept == |out|
  {
    out, total, kept := [], 0, 0;
    for i := 0 to |rows|
      invariant out == Kept(rows[..i], cfg)
      invariant total == i && kept == |out|
    {
      KeptSnoc(rows, cfg, i);
      var row := rows[i];
      total := total + 1;
      if PolymorphismField(row) != "yes" {
        continue;
      }
      var m1 := UpperText(row, "fasta1_motif");
      var m2 := UpperText(row, "fasta2_motif");
      if |m1| == 0 || |m2| == 0 {
        continue;
      }
      if m1 != m2 {
        continue;
      }
      if !IsValidDna(m1) {
        continue;
      }
      if |m1| !in cfg.allowedLengths {
        continue;
      }
      var r1 := IntCell(row, "fasta1_repeat_number");
      var r2 := IntCell(row, "fasta2_repeat_number");
      if r1.None? || r2.None? {
        continue;
      }
      if r1.value < cfg.minRepeats || r2.value < cfg.minRepeats {
        continue;
      }
      if !cfg.keepAtOnly && IsAtOnly(m1) {
        continue;
      }
      out := out + [row];
      kept := kept + 1;
    }
    assert rows[..|rows|] == rows;
  }

  // ---------------------------------------------------------------------------
  // The allowed motif lengths
  // ---------------------------------------------------------------------------

  /** The lengths named by comma-separated tokens; blank tokens are skipped, the first bad one is the error. */
  function LengthsFrom(tokens: seq<string>): Result<set<int>, string> {
    if |tokens| == 0 then Success({})
    else
      match LengthsFrom(tokens[..|tokens| - 1])
      case Failure(bad) => Failure(bad)
      case Success(acc) =>
        var tok := Strip(tokens[|tokens| - 1]);
        if |tok| == 0 then Success(acc)
        else if ParseInt(tok).None? then Failure(tok)
        else Success(acc + {ParseInt(tok).value})
  }

  /** `--allowed-motif-lengths` read as the script reads it. */
  function AllowedLengths(arg: string): Result<set<int>, string> {
    LengthsFrom(Split(arg, ','))
  }

  /** A token is acceptable when it is blank or an integer once stripped. */
  predicate GoodToken(t: string) {
    |Strip(t)| == 0 || ParseInt(Strip(t)).Some?
  }

  /** Reading succeeds exactly when every token is acceptable. */
  lemma {:induction false} LengthsFromSucceeds(tokens: seq<string>)
    ensures LengthsFrom(tokens).Success? <==> forall i :: 0 <= i < |tokens| ==> GoodToken(tokens[i])
  {
    if |tokens| > 0 {
      var init := tokens[..|tokens| - 1];
      LengthsFromSucceeds(init);
      assert forall i :: 0 <= i < |init| ==> init[i] == tokens[i];
    }
  }

  /** The integer a token names: none when it is blank or not an integer. */
  function TokenValue(t: string): Option<int> {
    if |Strip(t)| == 0 then None else ParseInt(Strip(t))
  }

  /** The length `v` was named when some token reads as `v`. */
  predicate LengthNamed(tokens: seq<string>, v: int) {
    exists i :: 0 <= i < |tokens| && TokenValue(tokens[i]) == Some(v)
  }

  /** On success the set holds exactly the integers of the non-blank tokens. */
  lemma {:induction false} LengthsFromValues(tokens: seq<string>, v: int)
    requires LengthsFrom(tokens).Success?
    ensures v in LengthsFrom(tokens).value <==> LengthNamed(tokens, v)
  {
    if |tokens| > 0 {
      var init := tokens[..|tokens| - 1];
      LengthsFromSnoc(tokens, v);
      LengthNamedSnoc(tokens, v);
      LengthsFromValues(init, v);
    }
  }

  /** The last token adds its value, if it has one, to the values of the others. */
  lemma LengthsFromSnoc(tokens: seq<string>, v: int)
    requires |tokens| > 0 && LengthsFrom(tokens).Success?
    ensures LengthsFrom(tokens[..|tokens| - 1]).Success?
    ensures v in LengthsFrom(tokens).value
        <==> (v in LengthsFrom(tokens[..|tokens| - 1]).value || TokenValue(tokens[|tokens| - 1]) == Some(v))
  {
  }

  /** A value is named by the tokens when it is named by all but the last, or by the last. */
  lemma LengthNamedSnoc(tokens: seq<string>, v: int)
    requires |tokens| > 0
    ensures LengthNamed(tokens, v)
        <==> (LengthNamed(tokens[..|tokens| - 1], v) || TokenValue(tokens[|tokens| - 1]) == Some(v))
  {
    ExistsSnoc(tokens, tokens[..|tokens| - 1], t => TokenValue(t) == Some(v));
  }

  /** One more row is kept exactly when it passes. */
  lemma KeptSnoc(rows: seq<DictRow>, cfg: Config, i: nat)
    requires i < |rows|
    ensures Kept(rows[..i + 1], cfg)
         == if Passes(rows[i], cfg) then Kept(rows[..i], cfg) + [rows[i]] else Kept(rows[..i], cfg)
  {
    assert rows[..i + 1][..i] == rows[..i];
  }

  /** The error names the first unacceptable token, stripped. */
  lemma {:induction false} LengthsFromFirstBad(tokens: seq<string>)
    requires LengthsFrom(tokens).Failure?
    ensures exists i :: (0 <= i < |tokens|
                         && LengthsFrom(tokens).error == Strip(tokens[i]) && !GoodToken(tokens[i])
                         && forall j :: 0 <= j < i ==> GoodToken(tokens[j]))
  {
    var init := tokens[..|tokens| - 1];
    if LengthsFrom(init).Failure? {
      LengthsFromFirstBad(init);
      var i :| 0 <= i < |init| && LengthsFrom(init).error == Strip(init[i]) && !GoodToken(init[i])
        && forall j :: 0 <= j < i ==> GoodToken(init[j]);
      assert forall j :: 0 <= j <= i ==> init[j] == tokens[j];
    } else {
      LengthsFromSucceeds(init);
      assert forall j :: 0 <= j < |init| ==> init[j] == tokens[j];
    }
  }

  /** The loop over the tokens of `--allowed-motif-lengths`. */
  method ParseAllowedLengths(arg: string) returns (r: Result<set<int>, string>)
    ensures r == AllowedLengths(arg)
  {
    var tokens := Split(arg, ',');
    var allowed: set<int> := {};
    for i := 0 to |tokens|
      invariant LengthsFrom(tokens[..i]) == Success(allowed)
    {
      var tok := Strip(tokens[i]);
      assert LengthsFrom(tokens[..i + 1])
          == if |tok| == 0 then Success(allowed)
             else if ParseInt(tok).None? then Failure(tok)
             else Success(allowed + {ParseInt(tok).value}) by {
        assert tokens[..i + 1][..i] == tokens[..i];
      }
      if |tok| == 0 {
        continue;
      }
      var v := ParseInt(tok);
      if v.None? {
        SameErrorLater(tokens, i + 1);
        return Failure(tok);
      }
      allowed := allowed + {v.value};
    }
    assert tokens[..|tokens|] == tokens;
    return Success(allowed);
  }

  /** Once a prefix of the tokens fails, every longer prefix fails with the same token. */
  lemma {:induction false} SameErrorLater(tokens: seq<string>, i: nat)
    requires 0 < i <= |tokens| && LengthsFrom(tokens[..i]).Failure?
    ensures LengthsFrom(tokens) == LengthsFrom(tokens[..i])
    decreases |tokens| - i
  {
    if i < |tokens| {
      assert tokens[..i + 1][..i] == tokens[..i];
      SameErrorLater(tokens, i + 1);
    } else {
      assert tokens[..i] == tokens;
    }
  }

  // ---------------------------------------------------------------------------
  // The whole program
  // ---------------------------------------------------------------------------

  /** Why the filter stops without output. */
  datatype FilterError =
    | NonIntegerLength(token: string)
    | NoHeader
    | MissingRequired(missing: seq<string>, have: seq<string>)

  /** The output table: the input header and the kept rows, with the two counts the summary reports. */
  datatype Outcome = Outcome(header: seq<string>, rows: seq<DictRow>, total: nat, kept: nat)

  /**
   * The program on its parsed inputs. The lengths are read first, then the header is
   * checked against the required columns, and only then are rows looked at.
   */
  function Filtered(lengthsArg: string, minRepeats: int, keepAtOnly: bool,
                    fieldnames: Option<seq<string>>, rows: seq<DictRow>): Result<Outcome, FilterError>
  {
    match AllowedLengths(lengthsArg)
    case Failure(tok) => Failure(NonIntegerLength(tok))
    case Success(allowed) =>
      if fieldnames.None? then Failure(NoHeader)
      else if |Tables.MissingColumns(REQUIRED_COLUMNS, fieldnames.value)| > 0 then
        Failure(MissingRequired(Tables.MissingColumns(REQUIRED_COLUMNS, fieldnames.value), fieldnames.value))
      else
        var out := Kept(rows, Config(allowed, minRepeats, keepAtOnly));
        Success(Outcome(fieldnames.value, out, |rows|, |out|))
  }

  /**
   * Every error is decided before any row is read, so it does not depend on the rows; a
   * missing required column is always reported, with the columns that are missing.
   */
  lemma ErrorsPrecedeRows(lengthsArg: string, minRepeats: int, keepAtOnly: bool,
                          fieldnames: Option<seq<string>>, rows1: seq<DictRow>, rows2: seq<DictRow>)
    ensures Filtered(lengthsArg, minRepeats, keepAtOnly, fieldnames, rows1).Failure? ==>
              (Filtered(lengthsArg, minRepeats, keepAtOnly, fieldnames, rows1)
               == Filtered(lengthsArg, minRepeats, keepAtOnly, fieldnames, rows2))
    ensures (AllowedLengths(lengthsArg).Success? && fieldnames.Some?
             && exists c :: c in REQUIRED_COLUMNS && c !in fieldnames.value) ==>
              (Filtered(lengthsArg, minRepeats, keepAtOnly, fieldnames, rows1)
               == Failure(MissingRequired(Tables.MissingColumns(REQUIRED_COLUMNS, fieldnames.value), fieldnames.value)))
  {
    if AllowedLengths(lengthsArg).Success? && fieldnames.Some? && (exists c :: c in REQUIRED_COLUMNS && c !in fieldnames.value) {
      var c :| c in REQUIRED_COLUMNS && c !in fieldnames.value;
      assert c in Tables.MissingColumns(REQUIRED_COLUMNS, fieldnames.value);
    }
  }

  /**
   * An accepted run writes the input header and every passing row, as often as it occurs,
   * in input order; `kept` counts the passing rows and `total` all rows.
   */
  lemma FilteredOutput(lengthsArg: string, minRepeats: int, keepAtOnly: bool,
                       fieldnames: Option<seq<string>>, rows: seq<DictRow>)
    requires Filtered(lengthsArg, minRepeats, keepAtOnly, fieldnames, rows).Success?
    ensures var o := Filtered(lengthsArg, minRepeats, keepAtOnly, fieldnames, rows).value;
      var cfg := Config(AllowedLengths(lengthsArg).value, minRepeats, keepAtOnly);
      fieldnames == Some(o.header)
      && IsSubsequence(o.rows, rows) && o.kept == |o.rows| <= o.total == |rows|
      && (forall r :: r in o.rows <==> r in rows && Passes(r, cfg))
      && forall r :: multiset(o.rows)[r] == if Passes(r, cfg) then multiset(rows)[r] else 0
  {
    KeptSpec(rows, Config(AllowedLengths(lengthsArg).value, minRepeats, keepAtOnly));
  }

  /** The whole filter: reads the lengths, checks the header, then filters the rows. */
  method FilterCompare(lengthsArg: string, minRepeats: int, keepAtOnly: bool,
                       fieldnames: Option<seq<string>>, rows: seq<DictRow>)
    returns (r: Result<Outcome, FilterError>)
    ensures r == Filtered(lengthsArg, minRepeats, keepAtOnly, fieldnames, rows)
  {
    var lengths := ParseAllowedLengths(lengthsArg);
    if lengths.Failure? {
      return Failure(NonIntegerLength(lengths.error));
    }
    if fieldnames.None? {
      return Failure(NoHeader);
    }
    var missing := Tables.MissingColumns(REQUIRED_COLUMNS, fieldnames.value);
    if |missing| > 0 {
      return Failure(MissingRequired(missing, fieldnames.value));
    }
    var out, total, kept := FilterRows(rows, Config(lengths.value, minRepeats, keepAtOnly));
    return Success(Outcome(fieldnames.value, out, total, kept));
  }
}
