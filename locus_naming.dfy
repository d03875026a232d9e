/**
 * The naming step of `add_msat_name.py`. A canonical name is written into a new column
 * after `id`. The name has the form `<motif>(<rmin>-<rmax>).<n>`, or `NA` when the
 * locus has no comparison record. All primer rows of one locus get the same name.
 * `n` counts the distinct loci with the same base name, in the order of their first
 * appearance.
 */
module LocusNaming {
  import opened Wrappers
  import opened Sequences
  import opened Text
  import opened Tables
  import opened CompareIndex

  /** The name given to a locus without a comparison record. */
  const NA: string := "NA"
  /** The column inserted after `id`. */
  const NAME_COLUMN: string := "microsatellite_name"

  // ---------------------------------------------------------------------------
  // The locus key of a primer id
  // ---------------------------------------------------------------------------

  /** The longest run of ASCII digits that `s` begins with. */
  function LeadingDigits(s: string): (r: string)
    ensures |r| <= |s|
  {
    if |s| > 0 && IsDigit(s[0]) then [s[0]] + LeadingDigits(s[1..]) else []
  }

  /** The leading digits are a prefix of `s`, all digits, and cannot be extended by another digit. */
  lemma {:induction false} LeadingDigitsSpec(s: string)
    ensures forall i :: 0 <= i < |LeadingDigits(s)| ==> LeadingDigits(s)[i] == s[i] && IsDigit(s[i])
    ensures |LeadingDigits(s)| == |s| || !IsDigit(s[|LeadingDigits(s)|])
    decreases |s|
  {
    if |s| > 0 && IsDigit(s[0]) {
      LeadingDigitsSpec(s[1..]);
    }
  }

  /**
   * The locus number of a primer id: the digits that follow any leading whitespace.
   * It is empty when no digit follows, as when the pattern `\s*(\d+)` does not match.
   */
  function ExtractLocusNum(raw: string): string {
    LeadingDigits(TrimLeft(raw))
  }

  /** The locus number is the maximal run of digits right after the leading whitespace. */
  lemma ExtractLocusNumSpec(raw: string)
    ensures AllDigits(ExtractLocusNum(raw))
    ensures |ExtractLocusNum(raw)| <= |TrimLeft(raw)|
    ensures forall i :: 0 <= i < |ExtractLocusNum(raw)| ==> ExtractLocusNum(raw)[i] == TrimLeft(raw)[i]
    ensures |ExtractLocusNum(raw)| == |TrimLeft(raw)| || !IsDigit(TrimLeft(raw)[|ExtractLocusNum(raw)|])
  {
    LeadingDigitsSpec(TrimLeft(raw));
  }

  /** Spaces after the point where two strings part make no difference to the leading digits. */
  lemma {:induction false} LeadingDigitsBeforeSpaces(p: string, t: string)
    requires |p| <= |t| && forall i :: 0 <= i < |p| ==> p[i] == t[i]
    requires forall i :: |p| <= i < |t| ==> IsSpace(t[i])
    ensures LeadingDigits(p) == LeadingDigits(t)
    decreases |p|
  {
    if |p| > 0 && IsDigit(p[0]) {
      LeadingDigitsBeforeSpaces(p[1..], t[1..]);
    } else if |p| == 0 && |t| > 0 {
      assert IsSpace(t[0]);
    }
  }

  /** Stripping an id before the extraction, as the naming passes do, changes nothing. */
  lemma ExtractIgnoresStrip(s: string)
    ensures ExtractLocusNum(Strip(s)) == ExtractLocusNum(s)
  {
    var l := TrimLeft(s);
    var r := TrimRight(l);
    TrimRightPrefix(l);
    assert TrimLeft(r) == r;
    LeadingDigitsBeforeSpaces(r, l);
  }

  // ---------------------------------------------------------------------------
  // Rows of the primer table
  // ---------------------------------------------------------------------------

  /** A short row padded with empty cells up to `width`; a row that is long enough is kept as is. */
  function Pad(row: seq<string>, width: nat): (r: seq<string>)
    ensures |r| == if |row| < width then width else |row|
    ensures forall k :: 0 <= k < |row| ==> r[k] == row[k]
    ensures forall k :: |row| <= k < |r| ==> r[k] == ""
  {
    if |row| < width then (row + seq(width, _ => ""))[..width] else row
  }

  /** The locus key of a data row whose id sits at `idIdx` of a header with `width` columns. */
  function LocusKey(row: seq<string>, idIdx: nat, width: nat): string
    requires idIdx < width
  {
    ExtractLocusNum(Strip(Pad(row, width)[idIdx]))
  }

  /** The locus keys of the data rows, one per row. */
  function Keys(data: seq<seq<string>>, idIdx: nat, width: nat): (ks: seq<string>)
    requires idIdx < width
    ensures |ks| == |data|
  {
    if |data| == 0 then []
    else Keys(data[..|data| - 1], idIdx, width) + [LocusKey(data[|data| - 1], idIdx, width)]
  }

  /** Key `i` is the key of row `i`. */
  lemma {:induction false} KeysAt(data: seq<seq<string>>, idIdx: nat, width: nat, i: nat)
    requires idIdx < width && i < |data|
    ensures Keys(data, idIdx, width)[i] == LocusKey(data[i], idIdx, width)
    decreases |data|
  {
    if i < |data| - 1 {
      KeysAt(data[..|data| - 1], idIdx, width, i);
    }
  }

  /** The non-empty keys in the order of their first appearance, each once. */
  function FirstSeen(keys: seq<string>): seq<string> {
    if |keys| == 0 then []
    else
      var prev := FirstSeen(keys[..|keys| - 1]);
      var k := keys[|keys| - 1];
      if |k| == 0 || k in prev then prev else prev + [k]
  }

  /** Every non-empty key is listed, nothing else is, and nothing is listed twice. */
  lemma {:induction false} FirstSeenSpec(keys: seq<string>)
    ensures NoDup(FirstSeen(keys))
    ensures forall k :: k in FirstSeen(keys) <==> |k| > 0 && k in keys
  {
    if |keys| > 0 {
      var init := keys[..|keys| - 1];
      FirstSeenSpec(init);
      assert keys == init + [keys[|keys| - 1]];
    }
  }

  /** Loci are listed in the order in which their keys first occur. */
  lemma {:induction false} FirstSeenOrder(keys: seq<string>, i: nat, j: nat)
    requires i < j < |FirstSeen(keys)|
    ensures FirstSeen(keys)[i] in keys && FirstSeen(keys)[j] in keys
    ensures FirstIndex(keys, FirstSeen(keys)[i]) < FirstIndex(keys, FirstSeen(keys)[j])
    decreases |keys|
  {
    var init := keys[..|keys| - 1];
    var prev := FirstSeen(init);
    var loci := FirstSeen(keys);
    var x, y := loci[i], loci[j];
    FirstSeenSpec(keys);
    FirstSeenSpec(init);
    assert x in loci && y in loci;
    if j < |prev| {
      assert loci[..|prev|] == prev;
      assert x == prev[i] && y == prev[j];
      FirstSeenOrder(init, i, j);
      FirstIndexInit(keys, x);
      FirstIndexInit(keys, y);
    } else {
      assert loci == prev + [keys[|keys| - 1]];
      assert x == prev[i] && x in init;
      assert y !in prev && y !in init;
      FirstIndexInit(keys, x);
      FirstIndexLast(keys, y);
    }
  }

  // ---------------------------------------------------------------------------
  // Base names and the suffix counter
  // ---------------------------------------------------------------------------

  /** `<motif>(<rmin>-<rmax>)`; it ends in `)`, so it is never the placeholder `NA`. */
  function BaseName(rec: Record): (b: string)
    ensures |b| > 0 && b[|b| - 1] == ')' && b != NA
  {
    rec.motif + "(" + IntToString(rec.rmin) + "-" + IntToString(rec.rmax) + ")"
  }

  /** The base name of a locus: from its comparison record, or `NA` without one. */
  function BaseFor(comp: map<string, Record>, k: string): string {
    if k in comp then BaseName(comp[k]) else NA
  }

  /** The base names Pass 1 records for the loci it found. */
  function BaseMap(loci: seq<string>, comp: map<string, Record>): map<string, string> {
    if |loci| == 0 then map[]
    else BaseMap(loci[..|loci| - 1], comp)[loci[|loci| - 1] := BaseFor(comp, loci[|loci| - 1])]
  }

  /** Exactly the loci have a recorded base name, and it is the one their record gives. */
  lemma {:induction false} BaseMapLookup(loci: seq<string>, comp: map<string, Record>, k: string)
    ensures k in BaseMap(loci, comp) <==> k in loci
    ensures k in loci ==> LookupOrNA(BaseMap(loci, comp), k) == BaseFor(comp, k)
  {
    if |loci| > 0 {
      var init := loci[..|loci| - 1];
      BaseMapLookup(init, comp, k);
      assert loci == init + [loci[|loci| - 1]];
    }
  }

  /** A lookup with `NA` as the default (`dict.get(k, "NA")`). */
  function LookupOrNA(m: map<string, string>, k: string): string {
    if k in m then m[k] else NA
  }

  /** A counter lookup with 0 as the default. */
  function CountOf(counts: map<string, nat>, b: string): nat {
    if b in counts then counts[b] else 0
  }

  /** How many of `loci` have the base name `b`. */
  function CountBase(loci: seq<string>, base: map<string, string>, b: string): nat {
    if |loci| == 0 then 0
    else
      CountBase(loci[..|loci| - 1], base, b)
      + (if LookupOrNA(base, loci[|loci| - 1]) == b then 1 else 0)
  }

  /** The state of Pass 2: the counter per base name and the final name per locus. */
  datatype Tally = Tally(counts: map<string, nat>, names: map<string, string>)

  /**
   * Pass 2 over `loci`. A locus whose base is `NA` is named `NA` and leaves the
   * counters alone. Any other locus first advances the counter of its base and is
   * then named `<base>.<counter>`.
   */
  function Assign(loci: seq<string>, base: map<string, string>): Tally {
    if |loci| == 0 then Tally(map[], map[])
    else
      var t := Assign(loci[..|loci| - 1], base);
      var l := loci[|loci| - 1];
      var b := LookupOrNA(base, l);
      if b == NA then Tally(t.counts, t.names[l := NA])
      else
        var counts := t.counts[b := CountOf(t.counts, b) + 1];
        Tally(counts, t.names[l := b + "." + IntToString(counts[b])])
  }

  /** `NA` is never counted, and the counter of every other base is the number of loci with it. */
  lemma {:induction false} AssignCounts(loci: seq<string>, base: map<string, string>)
    ensures NA !in Assign(loci, base).counts
    ensures forall b :: b != NA ==> CountOf(Assign(loci, base).counts, b) == CountBase(loci, base, b)
  {
    if |loci| > 0 {
      AssignCounts(loci[..|loci| - 1], base);
    }
  }

  /** Every locus, and nothing else, gets a name. */
  lemma {:induction false} AssignDomain(loci: seq<string>, base: map<string, string>, l: string)
    ensures l in Assign(loci, base).names <==> l in loci
  {
    if |loci| > 0 {
      var init := loci[..|loci| - 1];
      AssignDomain(init, base, l);
      assert loci == init + [loci[|loci| - 1]];
    }
  }

  /** The name a locus ends up with, given its base and its rank among loci with that base. */
  function Suffixed(b: string, rank: nat): string {
    if b == NA then NA else b + "." + IntToString(rank)
  }

  /**
   * Each locus is named after its base and its rank: the number of loci up to and
   * including it that share its base.
   */
  lemma {:induction false} AssignRank(loci: seq<string>, base: map<string, string>, i: nat)
    requires NoDup(loci) && i < |loci|
    ensures loci[i] in Assign(loci, base).names
    ensures Assign(loci, base).names[loci[i]]
         == Suffixed(LookupOrNA(base, loci[i]), CountBase(loci[..i + 1], base, LookupOrNA(base, loci[i])))
  {
    var n := |loci|;
    var init := loci[..n - 1];
    var t := Assign(init, base);
    var l := loci[i];
    var b := LookupOrNA(base, l);
    if i == n - 1 {
      assert loci[..i + 1] == loci;
      AssignCounts(init, base);
      if b != NA {
        var c := CountBase(loci, base, b);
        assert c == CountOf(t.counts, b) + 1;
        assert Assign(loci, base).names == t.names[l := b + "." + IntToString(c)];
      }
    } else {
      assert init[..i + 1] == loci[..i + 1];
      assert init[i] == l;
      NoDupDistinct(loci, i, n - 1);
      NoDupInit(loci);
      AssignRank(init, base, i);
      assert Assign(loci, base).names[l] == t.names[l];
    }
  }

  /** The prefix count grows by one exactly at a locus with the base. */
  lemma CountBaseStep(loci: seq<string>, base: map<string, string>, b: string, j: nat)
    requires j < |loci|
    ensures CountBase(loci[..j + 1], base, b)
         == CountBase(loci[..j], base, b) + (if LookupOrNA(base, loci[j]) == b then 1 else 0)
  {
    assert loci[..j + 1][..j] == loci[..j];
  }

  /** Loci without the base leave the prefix count where it was. */
  lemma {:induction false} CountBaseSkip(loci: seq<string>, base: map<string, string>, b: string, i: nat, j: nat)
    requires i <= j <= |loci|
    requires forall k :: i <= k < j ==> LookupOrNA(base, loci[k]) != b
    ensures CountBase(loci[..j], base, b) == CountBase(loci[..i], base, b)
    decreases j
  {
    if i < j {
      CountBaseSkip(loci, base, b, i, j - 1);
      CountBaseStep(loci, base, b, j - 1);
    }
  }

  /** The prefix count never decreases. */
  lemma {:induction false} CountBaseMonotone(loci: seq<string>, base: map<string, string>, b: string, i: nat, j: nat)
    requires i <= j <= |loci|
    ensures CountBase(loci[..i], base, b) <= CountBase(loci[..j], base, b)
    decreases j
  {
    if i < j {
      CountBaseMonotone(loci, base, b, i, j - 1);
      CountBaseStep(loci, base, b, j - 1);
    }
  }

  /** The first locus with a given base gets the suffix `.1`, even when no other locus shares it. */
  lemma FirstOfBaseGetsOne(loci: seq<string>, base: map<string, string>, i: nat)
    requires NoDup(loci) && i < |loci|
    requires LookupOrNA(base, loci[i]) != NA
    requires forall j :: 0 <= j < i ==> LookupOrNA(base, loci[j]) != LookupOrNA(base, loci[i])
    ensures loci[i] in Assign(loci, base).names
    ensures Assign(loci, base).names[loci[i]] == LookupOrNA(base, loci[i]) + ".1"
  {
    var b := LookupOrNA(base, loci[i]);
    assert CountBase(loci[..i + 1], base, b) == 1 by {
      CountBaseStep(loci, base, b, i);
      CountBaseSkip(loci, base, b, 0, i);
      assert loci[..0] == [];
    }
    AssignRank(loci, base, i);
    assert IntToString(1) == "1";
  }

  /** The next locus with the same base has the next rank. */
  lemma NextOfBaseRank(loci: seq<string>, base: map<string, string>, i: nat, j: nat)
    requires i < j < |loci|
    requires LookupOrNA(base, loci[j]) == LookupOrNA(base, loci[i])
    requires forall k :: i < k < j ==> LookupOrNA(base, loci[k]) != LookupOrNA(base, loci[i])
    ensures var b := LookupOrNA(base, loci[i]);
      CountBase(loci[..j + 1], base, b) == CountBase(loci[..i + 1], base, b) + 1
  {
    var b := LookupOrNA(base, loci[i]);
    CountBaseStep(loci, base, b, j);
    CountBaseSkip(loci, base, b, i + 1, j);
  }

  /** The next locus with the same base gets the next suffix: there are no gaps. */
  lemma NextOfBaseGetsNext(loci: seq<string>, base: map<string, string>, i: nat, j: nat)
    requires NoDup(loci) && i < j < |loci|
    requires LookupOrNA(base, loci[j]) == LookupOrNA(base, loci[i])
    requires forall k :: i < k < j ==> LookupOrNA(base, loci[k]) != LookupOrNA(base, loci[i])
    ensures loci[j] in Assign(loci, base).names
    ensures var b := LookupOrNA(base, loci[i]);
      Assign(loci, base).names[loci[j]] == Suffixed(b, CountBase(loci[..i + 1], base, b) + 1)
  {
    NextOfBaseRank(loci, base, i, j);
    AssignRank(loci, base, j);
  }

  /** Names of the form `<base>.<suffix>` differ whenever the base or the dot-free suffix differs. */
  lemma DottedDistinct(b1: string, s1: string, b2: string, s2: string)
    requires '.' !in s1 && '.' !in s2 && (b1 != b2 || s1 != s2)
    ensures b1 + "." + s1 != b2 + "." + s2
  {
    DotSplit(b1, s1);
    DotSplit(b2, s2);
  }

  /** In `<base>.<suffix>` with a dot-free suffix the last dot sits right after the base. */
  lemma DotSplit(b: string, s: string)
    requires '.' !in s
    ensures var w := b + "." + s;
      w[|b|] == '.' && (forall k :: |b| < k < |w| ==> w[k] != '.')
      && w[..|b|] == b && w[|b| + 1..] == s
  {
    var w := b + "." + s;
    assert forall k :: |b| < k < |w| ==> w[k] == s[k - |b| - 1];
  }

  /** A name with a suffix contains a dot, so it is never `NA`. */
  lemma SuffixedIsNA(b: string, rank: nat)
    ensures Suffixed(b, rank) == NA <==> b == NA
  {
    if b != NA {
      var w := b + "." + IntToString(rank);
      assert w[|b|] == '.';
      assert '.' !in NA;
    }
  }

  /** Two different loci never share a name other than `NA`. */
  lemma AssignDistinct(loci: seq<string>, base: map<string, string>, i: nat, j: nat)
    requires NoDup(loci) && i < j < |loci|
    requires LookupOrNA(base, loci[i]) != NA || LookupOrNA(base, loci[j]) != NA
    ensures loci[i] in Assign(loci, base).names && loci[j] in Assign(loci, base).names
    ensures Assign(loci, base).names[loci[i]] != Assign(loci, base).names[loci[j]]
  {
    var bi, bj := LookupOrNA(base, loci[i]), LookupOrNA(base, loci[j]);
    var ci, cj := CountBase(loci[..i + 1], base, bi), CountBase(loci[..j + 1], base, bj);
    AssignRank(loci, base, i);
    AssignRank(loci, base, j);
    SuffixedIsNA(bi, ci);
    SuffixedIsNA(bj, cj);
    if bi != NA && bj != NA {
      if bi == bj {
        CountBaseMonotone(loci, base, bi, i + 1, j);
        CountBaseStep(loci, base, bi, j);
        if IntToString(ci) == IntToString(cj) {
          IntToStringInjective(ci, cj);
        }
      }
      DottedDistinct(bi, IntToString(ci), bj, IntToString(cj));
    }
  }

  // ---------------------------------------------------------------------------
  // The whole primer table
  // ---------------------------------------------------------------------------

  /** Why the primer table cannot be named. */
  datatype NameError =
    | EmptyPrimerFile
    | NoIdColumn(header: seq<string>)
    | NoForwardPrimer(header: seq<string>)

  /** The final name of every locus of the data rows (Passes 1 and 2). */
  function LocusNames(data: seq<seq<string>>, idIdx: nat, width: nat, comp: map<string, Record>): map<string, string>
    requires idIdx < width
  {
    var loci := FirstSeen(Keys(data, idIdx, width));
    Assign(loci, BaseMap(loci, comp)).names
  }

  /** A data row, padded to the header's width, with the name of its locus after the id. */
  function NameRow(row: seq<string>, idIdx: nat, width: nat, names: map<string, string>): seq<string>
    requires idIdx < width
  {
    InsertAt(Pad(row, width), idIdx + 1, LookupOrNA(names, LocusKey(row, idIdx, width)))
  }

  /** The data rows as Pass 3 writes them. */
  function NameRows(data: seq<seq<string>>, idIdx: nat, width: nat, names: map<string, string>): seq<seq<string>>
    requires idIdx < width
  {
    seq(|data|, i requires 0 <= i < |data| => NameRow(data[i], idIdx, width, names))
  }

  /** The output table for a header that has the `id` column, given the name of every locus. */
  function NamedTable(header: seq<string>, data: seq<seq<string>>, names: map<string, string>): seq<seq<string>>
    requires "id" in header
  {
    [InsertAt(header, FirstIndex(header, "id") + 1, NAME_COLUMN)] + NameRows(data, FirstIndex(header, "id"), |header|, names)
  }

  /** The named primer table, or why there is none, for the lines of the primer file. */
  function Named(lines: seq<seq<string>>, comp: map<string, Record>): Result<seq<seq<string>>, NameError> {
    if |lines| == 0 then Failure(EmptyPrimerFile)
    else if "id" !in lines[0] then Failure(NoIdColumn(lines[0]))
    else if "forward_primer" !in lines[0] then Failure(NoForwardPrimer(lines[0]))
    else
      var header, data := lines[0], lines[1..];
      Success(NamedTable(header, data, LocusNames(data, FirstIndex(header, "id"), |header|, comp)))
  }

  /** One more data row adds its key at the end of the keys. */
  lemma KeysSnoc(data: seq<seq<string>>, idIdx: nat, width: nat, i: nat)
    requires idIdx < width && i < |data|
    ensures Keys(data[..i + 1], idIdx, width) == Keys(data[..i], idIdx, width) + [LocusKey(data[i], idIdx, width)]
  {
    assert data[..i + 1][..i] == data[..i];
  }

  /** One more key adds a locus exactly when it is non-empty and new. */
  lemma FirstSeenSnoc(keys: seq<string>, k: string)
    ensures FirstSeen(keys + [k]) == if |k| == 0 || k in FirstSeen(keys) then FirstSeen(keys) else FirstSeen(keys) + [k]
  {
    assert (keys + [k])[..|keys|] == keys;
  }

  /** One more locus adds its base name. */
  lemma BaseMapSnoc(loci: seq<string>, k: string, comp: map<string, Record>)
    ensures BaseMap(loci + [k], comp) == BaseMap(loci, comp)[k := BaseFor(comp, k)]
  {
    assert (loci + [k])[..|loci|] == loci;
  }

  /** The key Pass 1 and Pass 3 compute for a row, written out as they write it. */
  lemma InlineKey(row: seq<string>, idIdx: nat, width: nat)
    requires idIdx < width
    ensures var padded := if |row| < width then (row + seq(width, _ => ""))[..width] else row;
      idIdx < |padded| && padded == Pad(row, width)
      && ExtractLocusNum(Strip(padded[idIdx])) == LocusKey(row, idIdx, width)
  {
  }

  /**
   * Pass 1: the loci in the order of their first row, with their base names and the
   * loci that have no comparison record.
   */
  method DiscoverLoci(data: seq<seq<string>>, idIdx: nat, width: nat, comp: map<string, Record>)
    returns (loci: seq<string>, base: map<string, string>, missing: set<string>)
    requires idIdx < width
    ensures loci == FirstSeen(Keys(data, idIdx, width))
    ensures base == BaseMap(loci, comp)
    ensures forall k :: k in missing <==> k in loci && k !in comp
  {
    var seen: set<string> := {};
    loci, base, missing := [], map[], {};
    for i := 0 to |data|
      invariant loci == FirstSeen(Keys(data[..i], idIdx, width))
      invariant forall k :: k in seen <==> k in loci
      invariant base == BaseMap(loci, comp)
      invariant forall k :: k in missing <==> k in loci && k !in comp
    {
      var key := LocusKey(data[i], idIdx, width);
      assert FirstSeen(Keys(data[..i + 1], idIdx, width))
          == if |key| == 0 || key in loci then loci else loci + [key] by {
        KeysSnoc(data, idIdx, width, i);
        FirstSeenSnoc(Keys(data[..i], idIdx, width), key);
      }
      var row := data[i];
      if |row| < width {
        row := (row + seq(width, _ => ""))[..width];
      }
      var rawId := Strip(row[idIdx]);
      var locusNum := ExtractLocusNum(rawId);
      assert locusNum == key by {
        InlineKey(data[i], idIdx, width);
      }
      if |locusNum| == 0 {
        continue;
      }
      if locusNum in seen {
        continue;
      }
      BaseMapSnoc(loci, locusNum, comp);
      seen := seen + {locusNum};
      loci := loci + [locusNum];
      if locusNum in comp {
        base := base[locusNum := BaseName(comp[locusNum])];
      } else {
        base := base[locusNum := NA];
        missing := missing + {locusNum};
      }
    }
    assert data[..|data|] == data;
  }

  /** Pass 2: the final name of every locus. */
  method AssignNames(loci: seq<string>, base: map<string, string>) returns (final: map<string, string>)
    ensures final == Assign(loci, base).names
  {
    var counts: map<string, nat> := map[];
    final := map[];
    for i := 0 to |loci|
      invariant Tally(counts, final) == Assign(loci[..i], base)
    {
      assert loci[..i + 1][..i] == loci[..i];
      var locus := loci[i];
      var b := if locus in base then base[locus] else NA;
      if b == NA {
        final := final[locus := NA];
        continue;
      }
      counts := counts[b := (if b in counts then counts[b] else 0) + 1];
      var idx := counts[b];
      final := final[locus := b + "." + IntToString(idx)];
    }
    assert loci[..|loci|] == loci;
  }

  /** Pass 3: every data row with the name of its locus inserted after the id. */
  method RewriteRows(data: seq<seq<string>>, idIdx: nat, width: nat, final: map<string, string>)
    returns (out: seq<seq<string>>)
    requires idIdx < width
    ensures out == NameRows(data, idIdx, width, final)
  {
    out := [];
    for i := 0 to |data|
      invariant |out| == i
      invariant forall k :: 0 <= k < i ==> out[k] == NameRow(data[k], idIdx, width, final)
    {
      InlineKey(data[i], idIdx, width);
      var row := data[i];
      if |row| < width {
        row := (row + seq(width, _ => ""))[..width];
      }
      var rawId := Strip(row[idIdx]);
      var locusNum := ExtractLocusNum(rawId);
      var msName := if locusNum in final then final[locusNum] else NA;
      assert row == Pad(data[i], width) && msName == LookupOrNA(final, LocusKey(data[i], idIdx, width));
      var newRow := row[..idIdx + 1] + [msName] + row[idIdx + 1..];
      out := out + [newRow];
    }
  }

  /** The primer-table half of the program: checks the header, then runs the three passes. */
  method AddNames(lines: seq<seq<string>>, comp: map<string, Record>)
    returns (r: Result<seq<seq<string>>, NameError>)
    ensures r == Named(lines, comp)
  {
    if |lines| == 0 {
      return Failure(EmptyPrimerFile);
    }
    var header := lines[0];
    var data := lines[1..];
    if "id" !in header {
      return Failure(NoIdColumn(header));
    }
    var idIdx := FirstIndex(header, "id");
    if "forward_primer" !in header {
      return Failure(NoForwardPrimer(header));
    }
    var newHeader := header[..idIdx + 1] + [NAME_COLUMN] + header[idIdx + 1..];
    assert Named(lines, comp)
        == Success([InsertAt(header, idIdx + 1, NAME_COLUMN)]
                   + NameRows(data, idIdx, |header|, LocusNames(data, idIdx, |header|, comp)));
    assert newHeader == InsertAt(header, idIdx + 1, NAME_COLUMN);
    var loci, base, missing := DiscoverLoci(data, idIdx, |header|, comp);
    var final := AssignNames(loci, base);
    assert final == LocusNames(data, idIdx, |header|, comp);
    var out := RewriteRows(data, idIdx, |header|, final);
    return Success([newHeader] + out);
  }

  /** Why the program stops without output. */
  datatype RunError = CompareFailed(load: LoadError) | PrimersFailed(primers: NameError)

  /**
   * The whole program on the parsed inputs: the comparison table is loaded first and
   * its errors win; then the primer table is named with the loaded index.
   */
  method Run(fieldnames: Option<seq<string>>, compareRows: seq<DictRow>, primerLines: seq<seq<string>>)
    returns (r: Result<seq<seq<string>>, RunError>)
    ensures Load(fieldnames, compareRows).Failure? ==> r == Failure(CompareFailed(Load(fieldnames, compareRows).error))
    ensures Load(fieldnames, compareRows).Success? ==>
      r == match Named(primerLines, Load(fieldnames, compareRows).value)
           case Success(t) => Success(t)
           case Failure(e) => Failure(PrimersFailed(e))
  {
    var loaded := LoadCompare(fieldnames, compareRows);
    if loaded.Failure? {
      return Failure(CompareFailed(loaded.error));
    }
    var named := AddNames(primerLines, loaded.value);
    if named.Failure? {
      return Failure(PrimersFailed(named.error));
    }
    return Success(named.value);
  }

  // ---------------------------------------------------------------------------
  // Properties of the named table
  // ---------------------------------------------------------------------------

  /** The cell after the id of output row `i + 1` is the name of the locus of input line `i + 1`. */
  lemma NamedCell(lines: seq<seq<string>>, comp: map<string, Record>, i: nat)
    requires Named(lines, comp).Success? && i + 1 < |lines|
    ensures var idIdx := FirstIndex(lines[0], "id");
      var out := Named(lines, comp).value;
      |out| == |lines| && idIdx + 1 < |out[i + 1]|
      && |out[i + 1]| == (if |lines[i + 1]| < |lines[0]| then |lines[0]| else |lines[i + 1]|) + 1
      && out[i + 1][idIdx + 1]
         == LookupOrNA(LocusNames(lines[1..], idIdx, |lines[0]|, comp), LocusKey(lines[i + 1], idIdx, |lines[0]|))
  {
    var header, data := lines[0], lines[1..];
    assert data[i] == lines[i + 1];
    TableCell(header, data, LocusNames(data, FirstIndex(header, "id"), |header|, comp), i);
  }

  /**
   * Output row `j` is input line `j`, padded to the header's width, with one cell put in
   * right after the id: every other cell is the input's, unchanged and in order.
   */
  lemma NamedLine(lines: seq<seq<string>>, comp: map<string, Record>, j: nat)
    requires Named(lines, comp).Success? && 1 <= j < |lines|
    ensures |Named(lines, comp).value| == |lines|
    ensures InsertedAt(Named(lines, comp).value[j], Pad(lines[j], |lines[0]|), FirstIndex(lines[0], "id") + 1)
  {
    var header, data := lines[0], lines[1..];
    var names := LocusNames(data, FirstIndex(header, "id"), |header|, comp);
    assert Named(lines, comp).value == NamedTable(header, data, names);
    assert data[j - 1] == lines[j];
    TableRow(header, data, names, j);
  }

  /** The same, for the table built from the header, the data rows and the names. */
  lemma TableCell(header: seq<string>, data: seq<seq<string>>, names: map<string, string>, i: nat)
    requires "id" in header && i < |data|
    ensures |NamedTable(header, data, names)| == |data| + 1
    ensures |NamedTable(header, data, names)[i + 1]| == (if |data[i]| < |header| then |header| else |data[i]|) + 1
    ensures FirstIndex(header, "id") + 1 < |NamedTable(header, data, names)[i + 1]|
    ensures NamedTable(header, data, names)[i + 1][FirstIndex(header, "id") + 1]
         == LookupOrNA(names, LocusKey(data[i], FirstIndex(header, "id"), |header|))
  {
    var idIdx := FirstIndex(header, "id");
    var rows := NameRows(data, idIdx, |header|, names);
    assert NamedTable(header, data, names)[i + 1] == rows[i];
    NameRowsCell(data, idIdx, |header|, names, i);
  }

  /** Table row `j`, after the header, is data row `j - 1` padded, with one cell put in right after the id. */
  lemma TableRow(header: seq<string>, data: seq<seq<string>>, names: map<string, string>, j: nat)
    requires "id" in header && 1 <= j <= |data|
    ensures |NamedTable(header, data, names)| == |data| + 1
    ensures InsertedAt(NamedTable(header, data, names)[j], Pad(data[j - 1], |header|), FirstIndex(header, "id") + 1)
  {
    var idIdx := FirstIndex(header, "id");
    var rows := NameRows(data, idIdx, |header|, names);
    assert NamedTable(header, data, names)[j] == rows[j - 1];
    NameRowsRow(data, idIdx, |header|, names, j - 1);
  }

  /** Named row `i`: the padded row with one cell more, holding the row's name right after the id. */
  lemma NameRowsCell(data: seq<seq<string>>, idIdx: nat, width: nat, names: map<string, string>, i: nat)
    requires idIdx < width && i < |data|
    ensures |NameRows(data, idIdx, width, names)| == |data|
    ensures |NameRows(data, idIdx, width, names)[i]| == (if |data[i]| < width then width else |data[i]|) + 1
    ensures NameRows(data, idIdx, width, names)[i][idIdx + 1] == LookupOrNA(names, LocusKey(data[i], idIdx, width))
  {
    assert NameRows(data, idIdx, width, names)[i] == NameRow(data[i], idIdx, width, names);
  }

  /** Named row `i` is the padded row with one cell put in right after the id. */
  lemma NameRowsRow(data: seq<seq<string>>, idIdx: nat, width: nat, names: map<string, string>, i: nat)
    requires idIdx < width && i < |data|
    ensures |NameRows(data, idIdx, width, names)| == |data|
    ensures InsertedAt(NameRows(data, idIdx, width, names)[i], Pad(data[i], width), idIdx + 1)
  {
    assert NameRows(data, idIdx, width, names)[i] == NameRow(data[i], idIdx, width, names);
  }

  /** The errors, checked in order: an empty file, then a header without `id`, then one without `forward_primer`. */
  lemma NamedErrors(lines: seq<seq<string>>, comp: map<string, Record>)
    ensures Named(lines, comp).Failure? <==> |lines| == 0 || "id" !in lines[0] || "forward_primer" !in lines[0]
    ensures |lines| == 0 ==> Named(lines, comp) == Failure(EmptyPrimerFile)
    ensures |lines| > 0 && "id" !in lines[0] ==> Named(lines, comp) == Failure(NoIdColumn(lines[0]))
    ensures |lines| > 0 && "id" in lines[0] && "forward_primer" !in lines[0]
            ==> Named(lines, comp) == Failure(NoForwardPrimer(lines[0]))
  {
  }

  /**
   * The shape of the output: one output row per input line, the header with the name
   * column inserted right after `id`, and every data row padded to the header's width
   * with one cell inserted right after the id and every other cell unchanged.
   */
  lemma NamedShape(lines: seq<seq<string>>, comp: map<string, Record>)
    requires Named(lines, comp).Success?
    ensures |Named(lines, comp).value| == |lines|
    ensures Named(lines, comp).value[0] == InsertAt(lines[0], FirstIndex(lines[0], "id") + 1, NAME_COLUMN)
    ensures forall i :: 1 <= i < |lines| ==>
              |Named(lines, comp).value[i]| == (if |lines[i]| < |lines[0]| then |lines[0]| else |lines[i]|) + 1
    ensures forall i :: 1 <= i < |lines| ==>
              InsertedAt(Named(lines, comp).value[i], Pad(lines[i], |lines[0]|), FirstIndex(lines[0], "id") + 1)
  {
    var header, data := lines[0], lines[1..];
    var names := LocusNames(data, FirstIndex(header, "id"), |header|, comp);
    TableHead(header, data, names);
    TableWidths(header, data, names);
    assert forall i :: 1 <= i < |lines| ==> data[i - 1] == lines[i];
    forall i | 1 <= i < |lines|
      ensures InsertedAt(Named(lines, comp).value[i], Pad(lines[i], |lines[0]|), FirstIndex(lines[0], "id") + 1)
    {
      NamedLine(lines, comp, i);
    }
  }

  /** The table has one row more than the data, and it starts with the header with the name column. */
  lemma TableHead(header: seq<string>, data: seq<seq<string>>, names: map<string, string>)
    requires "id" in header
    ensures |NamedTable(header, data, names)| == |data| + 1
    ensures NamedTable(header, data, names)[0] == InsertAt(header, FirstIndex(header, "id") + 1, NAME_COLUMN)
  {
  }

  /** Each data row of the table is the padded row with one cell more. */
  lemma TableWidths(header: seq<string>, data: seq<seq<string>>, names: map<string, string>)
    requires "id" in header
    ensures forall i :: 0 <= i < |data| ==>
              |NamedTable(header, data, names)[i + 1]| == (if |data[i]| < |header| then |header| else |data[i]|) + 1
  {
    var idIdx := FirstIndex(header, "id");
    NameRowsWidths(data, idIdx, |header|, names);
    assert forall i :: 0 <= i < |data| ==> NamedTable(header, data, names)[i + 1] == NameRows(data, idIdx, |header|, names)[i];
  }

  /** Every named row is the padded row with one cell more. */
  lemma NameRowsWidths(data: seq<seq<string>>, idIdx: nat, width: nat, names: map<string, string>)
    requires idIdx < width
    ensures |NameRows(data, idIdx, width, names)| == |data|
    ensures forall i :: 0 <= i < |data| ==>
              |NameRows(data, idIdx, width, names)[i]| == (if |data[i]| < width then width else |data[i]|) + 1
  {
    forall i | 0 <= i < |data|
      ensures |NameRows(data, idIdx, width, names)[i]| == (if |data[i]| < width then width else |data[i]|) + 1
    {
      NameRowsCell(data, idIdx, width, names, i);
    }
  }

  /**
   * `<base>.<rank>` for a locus with a record: its base name and the number of loci up
   * to and including it, in first-seen order, that share the base name.
   */
  function RankedName(loci: seq<string>, comp: map<string, Record>, key: string): string
    requires key in loci && key in comp
  {
    Suffixed(BaseName(comp[key]), CountBase(loci[..FirstIndex(loci, key) + 1], BaseMap(loci, comp), BaseName(comp[key])))
  }

  /** A listed locus is named after its own base name and its rank, or `NA` without a record. */
  lemma NameOfLocus(loci: seq<string>, comp: map<string, Record>, k: string)
    requires NoDup(loci) && k in loci
    ensures k in comp ==> LookupOrNA(Assign(loci, BaseMap(loci, comp)).names, k) == RankedName(loci, comp, k) != NA
    ensures k !in comp ==> LookupOrNA(Assign(loci, BaseMap(loci, comp)).names, k) == NA
  {
    var base := BaseMap(loci, comp);
    var p := FirstIndex(loci, k);
    BaseMapLookup(loci, comp, k);
    AssignRank(loci, base, p);
    SuffixedIsNA(BaseFor(comp, k), CountBase(loci[..p + 1], base, BaseFor(comp, k)));
  }

  /** The name of a key: `NA` without a locus number or a record, the ranked base name otherwise. */
  lemma NameOfKey(keys: seq<string>, comp: map<string, Record>, key: string)
    requires key in keys
    ensures var loci := FirstSeen(keys);
      var name := LookupOrNA(Assign(loci, BaseMap(loci, comp)).names, key);
      (name == NA <==> |key| == 0 || key !in comp)
      && (|key| > 0 && key in comp ==> key in loci && name == RankedName(loci, comp, key))
  {
    var loci := FirstSeen(keys);
    FirstSeenSpec(keys);
    AssignDomain(loci, BaseMap(loci, comp), key);
    if |key| > 0 {
      NameOfLocus(loci, comp, key);
    }
  }

  /**
   * The name written into a data row. It is `NA` exactly when the row's id yields no
   * locus number or the number has no comparison record. Otherwise it is the base name
   * of the record, followed by a dot and the rank of the locus among the loci with that
   * base, counted in the order of their first rows.
   */
  lemma RowName(lines: seq<seq<string>>, comp: map<string, Record>, i: nat)
    requires Named(lines, comp).Success? && i + 1 < |lines|
    ensures
      var header := lines[0];
      var idIdx := FirstIndex(header, "id");
      var key := LocusKey(lines[i + 1], idIdx, |header|);
      var out := Named(lines, comp).value;
      var loci := FirstSeen(Keys(lines[1..], idIdx, |header|));
      idIdx + 1 < |out[i + 1]|
      && (out[i + 1][idIdx + 1] == NA <==> |key| == 0 || key !in comp)
      && (|key| > 0 && key in comp ==> key in loci && out[i + 1][idIdx + 1] == RankedName(loci, comp, key))
  {
    var header, data := lines[0], lines[1..];
    var idIdx := FirstIndex(header, "id");
    var keys := Keys(data, idIdx, |header|);
    var key := LocusKey(lines[i + 1], idIdx, |header|);
    var loci := FirstSeen(keys);
    var name := LookupOrNA(Assign(loci, BaseMap(loci, comp)).names, key);
    var cell := Named(lines, comp).value[i + 1][idIdx + 1];
    assert cell == name by {
      NamedCell(lines, comp, i);
    }
    assert keys[i] == key by {
      assert data[i] == lines[i + 1];
      KeysAt(data, idIdx, |header|, i);
    }
    NameOfKey(keys, comp, key);
  }

  /** Rows of the same locus get the same name. */
  lemma SameLocusSameName(lines: seq<seq<string>>, comp: map<string, Record>, i: nat, j: nat)
    requires Named(lines, comp).Success? && i + 1 < |lines| && j + 1 < |lines|
    requires var idIdx := FirstIndex(lines[0], "id");
      LocusKey(lines[i + 1], idIdx, |lines[0]|) == LocusKey(lines[j + 1], idIdx, |lines[0]|)
    ensures var idIdx := FirstIndex(lines[0], "id");
      idIdx + 1 < |Named(lines, comp).value[i + 1]| && idIdx + 1 < |Named(lines, comp).value[j + 1]|
      && Named(lines, comp).value[i + 1][idIdx + 1] == Named(lines, comp).value[j + 1][idIdx + 1]
  {
    NamedCell(lines, comp, i);
    NamedCell(lines, comp, j);
  }

  /** Rows of different loci never share a name other than `NA`. */
  lemma DistinctLociDistinctNames(lines: seq<seq<string>>, comp: map<string, Record>, i: nat, j: nat)
    requires Named(lines, comp).Success? && i + 1 < |lines| && j + 1 < |lines|
    requires var idIdx := FirstIndex(lines[0], "id");
      LocusKey(lines[i + 1], idIdx, |lines[0]|) != LocusKey(lines[j + 1], idIdx, |lines[0]|)
    ensures var idIdx := FirstIndex(lines[0], "id");
      idIdx + 1 < |Named(lines, comp).value[i + 1]| && idIdx + 1 < |Named(lines, comp).value[j + 1]|
      && (Named(lines, comp).value[i + 1][idIdx + 1] == NA
          || Named(lines, comp).value[i + 1][idIdx + 1] != Named(lines, comp).value[j + 1][idIdx + 1])
  {
    var header, data := lines[0], lines[1..];
    var idIdx := FirstIndex(header, "id");
    var keys := Keys(data, idIdx, |header|);
    var ki, kj := LocusKey(lines[i + 1], idIdx, |header|), LocusKey(lines[j + 1], idIdx, |header|);
    var loci := FirstSeen(keys);
    var base := BaseMap(loci, comp);
    var names := Assign(loci, base).names;
    NamedCell(lines, comp, i);
    NamedCell(lines, comp, j);
    assert keys[i] == ki && keys[j] == kj by {
      assert data[i] == lines[i + 1] && data[j] == lines[j + 1];
      KeysAt(data, idIdx, |header|, i);
      KeysAt(data, idIdx, |header|, j);
    }
    FirstSeenSpec(keys);
    AssignDomain(loci, base, ki);
    AssignDomain(loci, base, kj);
    if ki in names && kj in names {
      var p, q := FirstIndex(loci, ki), FirstIndex(loci, kj);
      if LookupOrNA(base, ki) != NA || LookupOrNA(base, kj) != NA {
        if p < q {
          AssignDistinct(loci, base, p, q);
        } else {
          AssignDistinct(loci, base, q, p);
        }
      } else {
        AssignRank(loci, base, p);
      }
    }
  }
}
