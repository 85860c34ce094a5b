/** The aggregation step (create-output.py): phone normalisation, and the
    transform from the loaded raw records to the summary table, the
    deduplicated detail table with formatted phone and fax, and the capped
    subset of the summary. */
module Output {
  import opened Wrappers
  import opened Seqs
  import opened Records
  import Permutations

  // ---------------------------------------------------------------------------
  // Phone numbers

  predicate IsDigit(c: char)
  {
    '0' <= c <= '9'
  }

  /** The digits of `s`, in order (`re.sub(r'\D', '', s)`). */
  function DigitsOf(s: string): string
  {
    Filter(s, IsDigit)
  }

  /** `(NNN) NNN-NNNN` from a number with exactly ten digits, otherwise None. */
  function FormatPhone(number: string): (r: Option<string>)
    ensures r.Some? <==> |DigitsOf(number)| == 10
  {
    var d := DigitsOf(number);
    if |d| == 10 then Some(Punctuate(d)) else None
  }

  function Punctuate(d: string): string
    requires |d| == 10
  {
    "(" + d[..3] + ") " + d[3..6] + "-" + d[6..]
  }

  lemma DigitsOfAllDigits(s: string)
    requires forall c :: c in s ==> IsDigit(c)
    ensures DigitsOf(s) == s
  {
    FilterAll(s, IsDigit);
  }

  lemma DigitsOfNoDigits(s: string)
    requires forall c :: c in s ==> !IsDigit(c)
    ensures DigitsOf(s) == []
  {
    FilterNone(s, IsDigit);
  }

  lemma DigitsOfAppend(a: string, b: string)
    ensures DigitsOf(a + b) == DigitsOf(a) + DigitsOf(b)
  {
    FilterAppend(a, b, IsDigit);
  }

  /** The digits of a concatenation, from the digits of its parts. */
  lemma DigitsOfAppendKnown(a: string, b: string, da: string, db: string)
    requires DigitsOf(a) == da && DigitsOf(b) == db
    ensures DigitsOf(a + b) == da + db
  {
    DigitsOfAppend(a, b);
  }

  lemma DigitsOfDigitSlice(d: string, i: nat, j: nat)
    requires i <= j <= |d| && forall c :: c in d ==> IsDigit(c)
    ensures DigitsOf(d[i..j]) == d[i..j]
  {
    forall c | c in d[i..j]
      ensures IsDigit(c)
    {
      var k :| i <= k < j && d[k] == c;
      assert d[k] in d;
    }
    DigitsOfAllDigits(d[i..j]);
  }

  lemma SplitThree<T>(s: seq<T>, i: nat, j: nat)
    requires i <= j <= |s|
    ensures s[..i] + s[i..j] + s[j..] == s
  {
  }

  /** The digits of a punctuated number are the number itself. */
  lemma DigitsOfPunctuate(d: string)
    requires |d| == 10 && forall c :: c in d ==> IsDigit(c)
    ensures DigitsOf(Punctuate(d)) == d
  {
    var a, b, c := d[..3], d[3..6], d[6..];
    DigitsOfDigitSlice(d, 0, 3);
    DigitsOfDigitSlice(d, 3, 6);
    DigitsOfDigitSlice(d, 6, 10);
    assert d[0..3] == a && d[6..10] == c;
    DigitsOfNoDigits("(");
    DigitsOfNoDigits(") ");
    DigitsOfNoDigits("-");
    var e: string := [];
    DigitsOfAppendKnown("(", a, e, a);
    DigitsOfAppendKnown("(" + a, ") ", a, e);
    DigitsOfAppendKnown("(" + a + ") ", b, a, b);
    DigitsOfAppendKnown("(" + a + ") " + b, "-", a + b, e);
    DigitsOfAppendKnown("(" + a + ") " + b + "-", c, a + b, c);
    SplitThree(d, 3, 6);
  }

  /** A formatted number is 14 characters with the punctuation in place and
      the same ten digits, in the same order, as the input. */
  lemma FormatPhoneShape(number: string)
    requires |DigitsOf(number)| == 10
    ensures var r := FormatPhone(number).value;
      && |r| == 14
      && r[0] == '(' && r[4] == ')' && r[5] == ' ' && r[9] == '-'
      && (forall i :: 0 <= i < 14 && i != 0 && i != 4 && i != 5 && i != 9 ==> IsDigit(r[i]))
      && DigitsOf(r) == DigitsOf(number)
  {
    var d := DigitsOf(number);
    FilterMembers(number, IsDigit);
    assert forall c :: c in d ==> IsDigit(c);
    DigitsOfPunctuate(d);
    var r := Punctuate(d);
    forall i | 0 <= i < 14 && i != 0 && i != 4 && i != 5 && i != 9
      ensures IsDigit(r[i])
    {
      var j := if i < 4 then i - 1 else if i < 9 then i - 3 else i - 4;
      assert r[i] == d[j];
      assert d[j] in d;
    }
  }

  /** Formatting a formatted number gives it back unchanged. */
  lemma FormatPhoneIdempotent(number: string)
    requires FormatPhone(number).Some?
    ensures FormatPhone(FormatPhone(number).value) == FormatPhone(number)
  {
    FormatPhoneShape(number);
  }

  /** Dashes between groups of digits are dropped. */
  lemma DashedDigits(a: string, b: string, c: string)
    requires forall x :: x in a + b + c ==> IsDigit(x)
    ensures DigitsOf(a + "-" + b + "-" + c) == a + b + c
  {
    var e: string := [];
    assert forall x :: x in a ==> x in a + b + c;
    assert forall x :: x in b ==> x in a + b + c;
    assert forall x :: x in c ==> x in a + b + c;
    DigitsOfAllDigits(a);
    DigitsOfAllDigits(b);
    DigitsOfAllDigits(c);
    DigitsOfNoDigits("-");
    DigitsOfAppendKnown(a, "-", a, e);
    DigitsOfAppendKnown(a + "-", b, a, b);
    DigitsOfAppendKnown(a + "-" + b, "-", a + b, e);
    DigitsOfAppendKnown(a + "-" + b + "-", c, a + b, c);
  }

  /** A dashed ten-digit number is punctuated, and the result formats to itself. */
  lemma FormatPhoneDashedExample()
    ensures FormatPhone("416-555-1234") == Some("(416) 555-1234")
    ensures FormatPhone("(416) 555-1234") == Some("(416) 555-1234")
  {
    DashedDigits("416", "555", "1234");
    assert "416" + "-" + "555" + "-" + "1234" == "416-555-1234";
    assert "416" + "555" + "1234" == "4165551234";
    assert Punctuate("4165551234") == "(416) 555-1234";
    FormatPhoneIdempotent("416-555-1234");
  }

  /** A number with fewer than ten digits is not formatted. */
  lemma FormatPhoneShortExample()
    ensures FormatPhone("12345") == None
  {
    DigitsOfAllDigits("12345");
  }

  // ---------------------------------------------------------------------------
  // Summary and detail rows

  datatype SummaryRow = SummaryRow(postalCode: string, totalcount: int)

  const UnknownPostalCode: string := "unknown"

  /** The summary row of one loaded record, with the defaults for absent keys. */
  function SummaryOf(data: RawRecord): SummaryRow
  {
    SummaryRow(
      if data.postalCode.Some? then data.postalCode.value else UnknownPostalCode,
      if data.totalcount.Some? then data.totalcount.value else 0)
  }

  /** The doctor rows one record contributes: none when `results` is absent or empty. */
  function ResultsOf(data: RawRecord): seq<Doctor>
  {
    if data.results.Some? then data.results.value else []
  }

  /** One summary row per loaded file, in file order; a file that could not be
      loaded is `None` and contributes nothing. */
  function SummaryRows(files: seq<Option<RawRecord>>): seq<SummaryRow>
    decreases |files|
  {
    if files == [] then []
    else
      var last := files[|files| - 1];
      SummaryRows(files[..|files| - 1]) + (if last.Some? then [SummaryOf(last.value)] else [])
  }

  /** The doctor rows of every loaded file, concatenated in file order. */
  function DetailRows(files: seq<Option<RawRecord>>): seq<Doctor>
    decreases |files|
  {
    if files == [] then []
    else
      var last := files[|files| - 1];
      DetailRows(files[..|files| - 1]) + (if last.Some? then ResultsOf(last.value) else [])
  }

  /** Both tables are built file by file: the rows of a sequence of files are the
      rows of its parts, in order. */
  lemma {:induction false} SummaryRowsAppend(a: seq<Option<RawRecord>>, b: seq<Option<RawRecord>>)
    ensures SummaryRows(a + b) == SummaryRows(a) + SummaryRows(b)
    decreases |b|
  {
    if b == [] {
      assert a + b == a;
    } else {
      var b0 := b[..|b| - 1];
      assert (a + b)[..|a + b| - 1] == a + b0;
      SummaryRowsAppend(a, b0);
    }
  }

  lemma {:induction false} DetailRowsAppend(a: seq<Option<RawRecord>>, b: seq<Option<RawRecord>>)
    ensures DetailRows(a + b) == DetailRows(a) + DetailRows(b)
    decreases |b|
  {
    if b == [] {
      assert a + b == a;
    } else {
      var b0 := b[..|b| - 1];
      assert (a + b)[..|a + b| - 1] == a + b0;
      DetailRowsAppend(a, b0);
    }
  }

  /** A single loaded file gives one summary row, with the defaults 'unknown' and 0
      for absent keys, and its results (none when they are absent or empty); a file
      that could not be loaded gives nothing. */
  lemma RowsOfOneFile(file: Option<RawRecord>)
    ensures file.None? ==> SummaryRows([file]) == [] && DetailRows([file]) == []
    ensures file.Some? ==>
              var data := file.value;
              && SummaryRows([file]) ==
                   [SummaryRow(if data.postalCode.None? then "unknown" else data.postalCode.value,
                               if data.totalcount.None? then 0 else data.totalcount.value)]
              && DetailRows([file]) ==
                   if data.results.None? || data.results.value == [] then [] else data.results.value
  {
    assert [file][..0] == [];
  }

  // ---------------------------------------------------------------------------
  // Deduplication by cpsonumber

  /** Row `i` is the first row carrying its id. A row without the key has the id
      None; pandas treats all such missing ids as equal. */
  ghost predicate IsFirstOfId(rows: seq<Doctor>, i: nat)
    requires i < |rows|
  {
    forall j :: 0 <= j < i ==> rows[j].cpsonumber != rows[i].cpsonumber
  }

  function Ids(rows: seq<Doctor>): set<Option<string>>
  {
    set d | d in rows :: d.cpsonumber
  }

  /** The first row of each id, in order (`drop_duplicates(subset=['cpsonumber'])`). */
  function DropDuplicateIds(rows: seq<Doctor>): seq<Doctor>
    decreases |rows|
  {
    if rows == [] then []
    else
      var init := rows[..|rows| - 1];
      var last := rows[|rows| - 1];
      DropDuplicateIds(init) + (if last.cpsonumber in Ids(init) then [] else [last])
  }

  /** The positions DropDuplicateIds keeps. */
  function FirstIdIndices(rows: seq<Doctor>): seq<nat>
    decreases |rows|
  {
    if rows == [] then []
    else
      var init := rows[..|rows| - 1];
      FirstIdIndices(init) + (if rows[|rows| - 1].cpsonumber in Ids(init) then [] else [|rows| - 1])
  }

  lemma IdsSnoc(init: seq<Doctor>, last: Doctor)
    ensures Ids(init + [last]) == Ids(init) + {last.cpsonumber}
  {
    var rows := init + [last];
    assert forall d :: d in rows <==> d in init || d == last;
  }

  /** The last row is the first of its id exactly when no earlier row carries that id. */
  lemma FirstOfIdLast(rows: seq<Doctor>)
    requires rows != []
    ensures IsFirstOfId(rows, |rows| - 1) <==> rows[|rows| - 1].cpsonumber !in Ids(rows[..|rows| - 1])
  {
    var init, last, n := rows[..|rows| - 1], rows[|rows| - 1], |rows| - 1;
    if last.cpsonumber in Ids(init) {
      var d :| d in init && d.cpsonumber == last.cpsonumber;
      var j :| 0 <= j < n && init[j] == d;
      assert rows[j] == d;
    } else {
      forall j | 0 <= j < n
        ensures rows[j].cpsonumber != last.cpsonumber
      {
        assert rows[j] == init[j] && init[j] in init;
      }
    }
  }

  /** Whether an earlier row is the first of its id does not depend on the last row. */
  lemma FirstOfIdPrefix(rows: seq<Doctor>, i: nat)
    requires i < |rows| - 1
    ensures IsFirstOfId(rows, i) <==> IsFirstOfId(rows[..|rows| - 1], i)
  {
    var init := rows[..|rows| - 1];
    forall j | 0 <= j <= i
      ensures rows[j] == init[j]
    {
    }
  }

  /** The kept rows are the rows at the kept positions, in order. */
  lemma {:induction false} DropDuplicateIdsAt(rows: seq<Doctor>)
    ensures SelectsAt(DropDuplicateIds(rows), rows, FirstIdIndices(rows))
    decreases |rows|
  {
    if rows != [] {
      var init := rows[..|rows| - 1];
      var keep := rows[|rows| - 1].cpsonumber !in Ids(init);
      DropDuplicateIdsAt(init);
      SelectsSnoc(DropDuplicateIds(init), rows, FirstIdIndices(init), keep);
    }
  }

  /** The kept positions are exactly the rows that are the first of their id. */
  lemma {:induction false} FirstIdIndicesIff(rows: seq<Doctor>)
    ensures forall k :: 0 <= k < |FirstIdIndices(rows)| ==> FirstIdIndices(rows)[k] < |rows|
    ensures forall i :: 0 <= i < |rows| ==> (i in FirstIdIndices(rows) <==> IsFirstOfId(rows, i))
    decreases |rows|
  {
    if rows != [] {
      var init := rows[..|rows| - 1];
      var n := |rows| - 1;
      FirstIdIndicesIff(init);
      FirstOfIdLast(rows);
      forall i | 0 <= i < n
        ensures i in FirstIdIndices(rows) <==> IsFirstOfId(rows, i)
      {
        FirstOfIdPrefix(rows, i);
      }
    }
  }

  /** Deduplication keeps exactly the first row of each id, in the original order. */
  lemma DropDuplicateIdsSelects(rows: seq<Doctor>)
    ensures SelectsAt(DropDuplicateIds(rows), rows, FirstIdIndices(rows))
    ensures forall i :: 0 <= i < |rows| ==> (i in FirstIdIndices(rows) <==> IsFirstOfId(rows, i))
  {
    DropDuplicateIdsAt(rows);
    FirstIdIndicesIff(rows);
  }

  /** The kept ids are pairwise distinct and every id of the input survives. */
  lemma {:induction false} DropDuplicateIdsDistinct(rows: seq<Doctor>)
    ensures forall k, l :: 0 <= k < l < |DropDuplicateIds(rows)| ==>
              DropDuplicateIds(rows)[k].cpsonumber != DropDuplicateIds(rows)[l].cpsonumber
    ensures Ids(DropDuplicateIds(rows)) == Ids(rows)
    decreases |rows|
  {
    if rows != [] {
      var init := rows[..|rows| - 1];
      var last := rows[|rows| - 1];
      DropDuplicateIdsDistinct(init);
      var r0 := DropDuplicateIds(init);
      assert rows == init + [last];
      IdsSnoc(init, last);
      if last.cpsonumber !in Ids(init) {
        IdsSnoc(r0, last);
        forall k | 0 <= k < |r0|
          ensures r0[k].cpsonumber != last.cpsonumber
        {
          assert r0[k] in r0;
        }
      } else {
        assert DropDuplicateIds(rows) == r0;
      }
    }
  }

  /** The detail table has a `cpsonumber` column when some row carries the key. */
  predicate HasCpsoColumn(rows: seq<Doctor>)
  {
    exists d :: d in rows && d.cpsonumber.Some?
  }

  /** Deduplication happens only when the column exists. */
  function DropDuplicates(rows: seq<Doctor>): seq<Doctor>
  {
    if HasCpsoColumn(rows) then DropDuplicateIds(rows) else rows
  }

  method DedupByCpso(rows: seq<Doctor>) returns (kept: seq<Doctor>)
    ensures kept == DropDuplicateIds(rows)
  {
    kept := [];
    var seen: set<Option<string>> := {};
    var i := 0;
    while i < |rows|
      invariant 0 <= i <= |rows|
      invariant kept == DropDuplicateIds(rows[..i])
      invariant seen == Ids(rows[..i])
    {
      assert rows[..i + 1][..i] == rows[..i];
      assert rows[..i + 1] == rows[..i] + [rows[i]];
      IdsSnoc(rows[..i], rows[i]);
      if rows[i].cpsonumber !in seen {
        kept := kept + [rows[i]];
      }
      seen := seen + {rows[i].cpsonumber};
      i := i + 1;
    }
    assert rows[..i] == rows;
  }

  // ---------------------------------------------------------------------------
  // Phone and fax columns

  /** The formatter applied to one cell; an absent or null cell reads as 'nan' or
      'None', which has no digits. */
  function FormatCell(cell: Option<string>): Option<string>
  {
    if cell.None? then None else FormatPhone(cell.value)
  }

  datatype Column = PhoneNumber | Fax

  function Cell(d: Doctor, column: Column): Option<string>
  {
    if column == PhoneNumber then d.phonenumber else d.fax
  }

  function WithCell(d: Doctor, column: Column, cell: Option<string>): Doctor
  {
    if column == PhoneNumber then d.(phonenumber := cell) else d.(fax := cell)
  }

  function FormatContacts(rows: seq<Doctor>): seq<Doctor>
  {
    seq(|rows|, k requires 0 <= k < |rows| =>
      rows[k].(phonenumber := FormatCell(rows[k].phonenumber), fax := FormatCell(rows[k].fax)))
  }

  /** A cell after formatting: None or a 14-character formatted number. */
  predicate IsFormattedCell(cell: Option<string>)
  {
    cell.None? || (|cell.value| == 14 && FormatPhone(cell.value) == cell)
  }

  /** Reassign one column in place with the formatter (`df[c] = df[c].apply(format_phone)`). */
  method FormatColumn(table: array<Doctor>, column: Column)
    modifies table
    ensures forall k :: 0 <= k < table.Length ==>
              table[k] == WithCell(old(table[k]), column, FormatCell(Cell(old(table[k]), column)))
  {
    var k := 0;
    while k < table.Length
      invariant 0 <= k <= table.Length
      invariant forall i :: 0 <= i < k ==>
                  table[i] == WithCell(old(table[i]), column, FormatCell(Cell(old(table[i]), column)))
      invariant forall i :: k <= i < table.Length ==> table[i] == old(table[i])
    {
      table[k] := WithCell(table[k], column, FormatCell(Cell(table[k], column)));
      k := k + 1;
    }
  }

  method FormatContactColumns(table: array<Doctor>)
    modifies table
    ensures table[..] == FormatContacts(old(table[..]))
  {
    FormatColumn(table, PhoneNumber);
    FormatColumn(table, Fax);
  }

  /** After formatting, every phone and fax cell is None or a formatted number,
      and every other field of every row is unchanged. */
  lemma ContactsFormatted(rows: seq<Doctor>)
    ensures |FormatContacts(rows)| == |rows|
    ensures forall k :: 0 <= k < |rows| ==>
              && IsFormattedCell(FormatContacts(rows)[k].phonenumber)
              && IsFormattedCell(FormatContacts(rows)[k].fax)
              && FormatContacts(rows)[k].cpsonumber == rows[k].cpsonumber
              && FormatContacts(rows)[k].other == rows[k].other
  {
    forall cell: Option<string>
      ensures IsFormattedCell(FormatCell(cell))
    {
      if cell.Some? && FormatPhone(cell.value).Some? {
        FormatPhoneShape(cell.value);
        FormatPhoneIdempotent(cell.value);
      }
    }
  }

  // ---------------------------------------------------------------------------
  // Capped codes and the whole transform

  /** A summary row whose search hit the server's cap, on a key of seven characters. */
  predicate IsCapped(row: SummaryRow)
  {
    row.totalcount == -1 && |row.postalCode| == 7
  }

  /** The capped subset holds, in order, exactly the summary rows with totalcount -1
      and a seven-character postal code. */
  lemma CappedRowsSpec(summary: seq<SummaryRow>)
    ensures SelectsAt(Filter(summary, IsCapped), summary, FilterIndices(summary, IsCapped))
    ensures forall i :: 0 <= i < |summary| ==>
              (i in FilterIndices(summary, IsCapped) <==>
                 summary[i].totalcount == -1 && |summary[i].postalCode| == 7)
  {
    FilterSelects(summary, IsCapped);
  }

  lemma Ldu1KeyLengths(areas: seq<string>, ldu1: seq<string>)
    requires forall a :: a in areas ==> |a| == 3
    requires ldu1 == Permutations.Expand(areas, "+", Permutations.ValidDigits)
    ensures forall x :: x in ldu1 ==> |x| == 5
  {
    assert Permutations.Separator(Permutations.Ldu1) == "+";
    assert Permutations.Alphabet(Permutations.Ldu1) == Permutations.ValidDigits;
    Permutations.ExpandLength(areas, Permutations.Ldu1, 3);
  }

  lemma Ldu2KeyLengths(ldu1: seq<string>, ldu2: seq<string>)
    requires forall a :: a in ldu1 ==> |a| == 5
    requires ldu2 == Permutations.Expand(ldu1, "", Permutations.ValidLetters)
    ensures forall x :: x in ldu2 ==> |x| == 6
  {
    assert Permutations.Separator(Permutations.Ldu2) == "";
    assert Permutations.Alphabet(Permutations.Ldu2) == Permutations.ValidLetters;
    Permutations.ExpandLength(ldu1, Permutations.Ldu2, 5);
  }

  lemma Ldu3KeyLengths(ldu2: seq<string>, ldu3: seq<string>)
    requires forall a :: a in ldu2 ==> |a| == 6
    requires ldu3 == Permutations.Expand(ldu2, "", Permutations.ValidDigits)
    ensures forall x :: x in ldu3 ==> |x| == 7
  {
    assert Permutations.Separator(Permutations.Ldu3) == "";
    assert Permutations.Alphabet(Permutations.Ldu3) == Permutations.ValidDigits;
    Permutations.ExpandLength(ldu2, Permutations.Ldu3, 6);
  }

  /** Keys made by the generator from three-character areas render with 5, 6 and 7
      characters after one, two and three expansions, so among generated keys with
      totalcount -1 the length test picks out exactly the complete codes, LDU3's
      output: areas and LDU1/LDU2 keys are never capped. */
  lemma CappedLengthPicksFullCodes(areas: seq<string>, ldu1: seq<string>, ldu2: seq<string>, ldu3: seq<string>)
    requires forall a :: a in areas ==> |a| == 3
    requires ldu1 == Permutations.Expand(areas, "+", Permutations.ValidDigits)
    requires ldu2 == Permutations.Expand(ldu1, "", Permutations.ValidLetters)
    requires ldu3 == Permutations.Expand(ldu2, "", Permutations.ValidDigits)
    ensures forall a :: a in areas ==> !IsCapped(SummaryRow(a, -1))
    ensures forall x :: x in ldu1 ==> !IsCapped(SummaryRow(x, -1))
    ensures forall x :: x in ldu2 ==> !IsCapped(SummaryRow(x, -1))
    ensures forall x :: x in ldu3 ==> IsCapped(SummaryRow(x, -1))
  {
    Ldu1KeyLengths(areas, ldu1);
    Ldu2KeyLengths(ldu1, ldu2);
    Ldu3KeyLengths(ldu2, ldu3);
  }

  /** A record without a postal code gets the seven-letter default 'unknown',
      which the length test accepts when its totalcount is -1. */
  lemma UnknownCodeIsCapped(data: RawRecord)
    requires data.postalCode.None? && data.totalcount == Some(-1)
    ensures SummaryOf(data).postalCode == "unknown"
    ensures IsCapped(SummaryOf(data))
  {
  }

  /** The result of the whole transform. `NoFiles`: nothing matched the pattern and
      nothing is written. `MissingColumn`: files matched but none could be loaded, so
      the summary frame has no `totalcount` column and selecting capped rows raises
      KeyError. */
  datatype Aggregate =
    | NoFiles
    | MissingColumn
    | Tables(summary: seq<SummaryRow>, details: seq<Doctor>, capped: seq<SummaryRow>)

  function Aggregated(files: seq<Option<RawRecord>>): Aggregate
  {
    if files == [] then NoFiles
    else if SummaryRows(files) == [] then MissingColumn
    else
      var summary := SummaryRows(files);
      Tables(summary, FormatContacts(DropDuplicates(DetailRows(files))), Filter(summary, IsCapped))
  }

  /** process_data over the files matched by the glob, each already parsed or None. */
  method ProcessData(files: seq<Option<RawRecord>>) returns (out: Aggregate)
    ensures out == Aggregated(files)
  {
    if files == [] {
      return NoFiles;
    }
    var summaryRows: seq<SummaryRow> := [];
    var detailRows: seq<Doctor> := [];
    var i := 0;
    while i < |files|
      invariant 0 <= i <= |files|
      invariant summaryRows == SummaryRows(files[..i])
      invariant detailRows == DetailRows(files[..i])
    {
      assert files[..i + 1][..i] == files[..i];
      if files[i].Some? {
        var data := files[i].value;
        summaryRows := summaryRows + [SummaryOf(data)];
        if data.results.Some? && data.results.value != [] {
          detailRows := detailRows + data.results.value;
        }
      }
      i := i + 1;
    }
    assert files[..i] == files;
    var details := detailRows;
    if HasCpsoColumn(detailRows) {
      details := DedupByCpso(detailRows);
    }
    var table := new Doctor[|details|](k requires 0 <= k < |details| => details[k]);
    assert table[..] == details;
    FormatContactColumns(table);
    if summaryRows == [] {
      return MissingColumn;
    }
    out := Tables(summaryRows, table[..], Filter(summaryRows, IsCapped));
  }

  /** What the transform guarantees of its tables: no two detail rows share a
      `cpsonumber` when that column exists, every phone and fax cell is None or
      formatted, every capped row is a summary row with totalcount -1 and a
      seven-character code, and only the two error outcomes lack tables. */
  lemma AggregatedSpec(files: seq<Option<RawRecord>>)
    ensures Aggregated(files).NoFiles? <==> files == []
    ensures Aggregated(files).MissingColumn? <==> files != [] && forall k :: 0 <= k < |files| ==> files[k].None?
    ensures Aggregated(files).Tables? ==>
              var t := Aggregated(files);
              && (HasCpsoColumn(DetailRows(files)) ==>
                    forall k, l :: 0 <= k < l < |t.details| ==> t.details[k].cpsonumber != t.details[l].cpsonumber)
              && (forall k :: 0 <= k < |t.details| ==>
                    IsFormattedCell(t.details[k].phonenumber) && IsFormattedCell(t.details[k].fax))
              && (forall row :: row in t.capped <==> row in t.summary && row.totalcount == -1 && |row.postalCode| == 7)
  {
    NoRowsIffNothingLoaded(files);
    if Aggregated(files).Tables? {
      var deduped := DropDuplicates(DetailRows(files));
      DropDuplicateIdsDistinct(DetailRows(files));
      ContactsFormatted(deduped);
      FilterSelects(SummaryRows(files), IsCapped);
      var summary := SummaryRows(files);
      forall row | row in summary && IsCapped(row)
        ensures row in Filter(summary, IsCapped)
      {
        var i :| 0 <= i < |summary| && summary[i] == row;
        var idx := FilterIndices(summary, IsCapped);
        var k :| 0 <= k < |idx| && idx[k] == i;
        assert Filter(summary, IsCapped)[k] == row;
      }
    }
  }

  lemma {:induction false} NoRowsIffNothingLoaded(files: seq<Option<RawRecord>>)
    ensures SummaryRows(files) == [] <==> forall k :: 0 <= k < |files| ==> files[k].None?
    decreases |files|
  {
    if files != [] {
      var init := files[..|files| - 1];
      NoRowsIffNothingLoaded(init);
      assert forall k :: 0 <= k < |init| ==> init[k] == files[k];
    }
  }
}
