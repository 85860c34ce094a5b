/** The postal-code permutation generator (create-postal-code-permutations.py):
    the two alphabets, the three LDU expansions, the case-insensitive level
    dispatch, the loader that keeps capped codes, and the "true length" filter
    that ignores the '+' marker inserted by the first expansion. */
module Permutations {
  import opened Wrappers
  import opened Seqs

  // ---------------------------------------------------------------------------
  // Alphabets

  /** Uppercase letters a Canadian postal code may not use. */
  const ExcludedLetters: set<char> := {'D', 'F', 'I', 'O', 'Q', 'U'}

  /** The letters of an LDU's second position. */
  const ValidLetters: string := "ABCEGHJKLMNPRSTVWXYZ"

  /** The digits of an LDU's first and third positions. */
  const ValidDigits: string := "0123456789"

  predicate IsUpperAscii(c: char)
  {
    'A' <= c <= 'Z'
  }

  /** Where each uppercase letter sits in ValidLetters, or -1 for an excluded one. */
  const LetterPosition: seq<int> :=
    [0, 1, 2, -1, 3, -1, 4, 5, -1, 6, 7, 8, 9, 10, -1, 11, -1, 12, 13, 14, -1, 15, 16, 17, 18, 19]

  /** The letters are the ASCII uppercase letters other than the excluded six, in
      alphabetical order, and the digits are '0' to '9' in order. */
  lemma Alphabets()
    ensures |ValidLetters| == 20
    ensures forall c :: c in ValidLetters <==> IsUpperAscii(c) && c !in ExcludedLetters
    ensures forall i, j :: 0 <= i < j < |ValidLetters| ==> ValidLetters[i] < ValidLetters[j]
    ensures |ValidDigits| == 10
    ensures forall j :: 0 <= j < 10 ==> ValidDigits[j] as int == '0' as int + j
  {
    LettersAreValid();
    ValidAreLetters();
    LettersIncrease();
  }

  lemma LettersAreValid()
    ensures forall i :: 0 <= i < |ValidLetters| ==> IsUpperAscii(ValidLetters[i]) && ValidLetters[i] !in ExcludedLetters
  {
  }

  lemma ValidAreLetters()
    ensures forall c :: IsUpperAscii(c) && c !in ExcludedLetters ==> c in ValidLetters
  {
    forall c | IsUpperAscii(c) && c !in ExcludedLetters
      ensures c in ValidLetters
    {
      var k := c as int - 'A' as int;
      assert 0 <= LetterPosition[k] < 20 && ValidLetters[LetterPosition[k]] == c;
    }
  }

  lemma LettersIncrease()
    ensures forall i, j :: 0 <= i < j < |ValidLetters| ==> ValidLetters[i] < ValidLetters[j]
  {
    forall i | 0 <= i < 19
      ensures ValidLetters[i] < ValidLetters[i + 1]
    {
    }
    forall i, j | 0 <= i < j < |ValidLetters|
      ensures ValidLetters[i] < ValidLetters[j]
    {
      IncreasingFrom(i, j);
    }
  }

  lemma {:induction false} IncreasingFrom(i: nat, j: nat)
    requires i < j < |ValidLetters|
    requires forall l :: 0 <= l < 19 ==> ValidLetters[l] < ValidLetters[l + 1]
    ensures ValidLetters[i] < ValidLetters[j]
    decreases j - i
  {
    if i + 1 < j {
      IncreasingFrom(i + 1, j);
    }
  }

  // ---------------------------------------------------------------------------
  // Expansion

  /** The children of one parent code: the parent, then `sep`, then one character
      of `alphabet`, in alphabet order (the list comprehension of each generator). */
  function Children(code: string, sep: string, alphabet: string): seq<string>
  {
    seq(|alphabet|, j requires 0 <= j < |alphabet| => code + sep + [alphabet[j]])
  }

  /** The children of every parent, parent by parent (the `extend` loop of each generator). */
  function Expand(codes: seq<string>, sep: string, alphabet: string): seq<string>
    decreases |codes|
  {
    if codes == [] then []
    else Expand(codes[..|codes| - 1], sep, alphabet) + Children(codes[|codes| - 1], sep, alphabet)
  }

  lemma MulAtLeast(a: int, n: int)
    requires a >= 1 && n >= 0
    ensures a * n >= n
  {
  }

  lemma MulSucc(a: int, n: int)
    ensures (a + 1) * n == a * n + n
  {
  }

  /** Euclidean division recovers the two parts of `q * n + j`. */
  lemma DivModOf(q: nat, j: nat, n: nat)
    requires j < n
    ensures (q * n + j) / n == q && (q * n + j) % n == j
  {
    var k := q * n + j;
    var d, r := k / n, k % n;
    assert k == d * n + r;
    assert (d - q) * n == j - r;
    assert (q - d) * n == r - j;
    if d > q {
      MulAtLeast(d - q, n);
    } else if d < q {
      MulAtLeast(q - d, n);
    }
  }

  lemma {:induction false} ExpandSize(codes: seq<string>, sep: string, alphabet: string)
    ensures |Expand(codes, sep, alphabet)| == |codes| * |alphabet|
    decreases |codes|
  {
    if codes != [] {
      var init := codes[..|codes| - 1];
      ExpandSize(init, sep, alphabet);
      MulSucc(|init|, |alphabet|);
    }
  }

  lemma {:induction false} ExpandAtIndex(codes: seq<string>, sep: string, alphabet: string, k: nat)
    requires alphabet != []
    requires k < |codes| * |alphabet|
    ensures |Expand(codes, sep, alphabet)| == |codes| * |alphabet|
    ensures k / |alphabet| < |codes|
    ensures Expand(codes, sep, alphabet)[k] == codes[k / |alphabet|] + sep + [alphabet[k % |alphabet|]]
    decreases |codes|
  {
    var n := |alphabet|;
    ExpandSize(codes, sep, alphabet);
    var init, last := codes[..|codes| - 1], codes[|codes| - 1];
    ExpandSize(init, sep, alphabet);
    var e0 := Expand(init, sep, alphabet);
    assert Expand(codes, sep, alphabet) == e0 + Children(last, sep, alphabet);
    if k < |e0| {
      ExpandAtIndex(init, sep, alphabet, k);
    } else {
      MulSucc(|init|, n);
      DivModOf(|init|, k - |e0|, n);
    }
  }

  /** The expansion has `|alphabet|` entries per parent, and entry `k` is parent
      `k / |alphabet|` followed by `sep` and character `k % |alphabet|`. */
  lemma ExpandAt(codes: seq<string>, sep: string, alphabet: string)
    requires alphabet != []
    ensures |Expand(codes, sep, alphabet)| == |codes| * |alphabet|
    ensures forall k :: 0 <= k < |Expand(codes, sep, alphabet)| ==> k / |alphabet| < |codes|
    ensures forall k :: 0 <= k < |Expand(codes, sep, alphabet)| ==>
              Expand(codes, sep, alphabet)[k] == codes[k / |alphabet|] + sep + [alphabet[k % |alphabet|]]
  {
    ExpandSize(codes, sep, alphabet);
    forall k | 0 <= k < |Expand(codes, sep, alphabet)|
      ensures k / |alphabet| < |codes|
      ensures Expand(codes, sep, alphabet)[k] == codes[k / |alphabet|] + sep + [alphabet[k % |alphabet|]]
    {
      ExpandAtIndex(codes, sep, alphabet, k);
    }
  }

  /** Entry `i * |alphabet| + j` is parent `i` followed by `sep` and character `j`. */
  lemma ExpandEntry(codes: seq<string>, sep: string, alphabet: string, i: nat, j: nat)
    requires i < |codes| && j < |alphabet|
    ensures i * |alphabet| + j < |Expand(codes, sep, alphabet)|
    ensures Expand(codes, sep, alphabet)[i * |alphabet| + j] == codes[i] + sep + [alphabet[j]]
  {
    ExpandAt(codes, sep, alphabet);
    DivModOf(i, j, |alphabet|);
    MulAtLeast(|codes| - i, |alphabet|);
    assert |codes| * |alphabet| == i * |alphabet| + (|codes| - i) * |alphabet|;
  }

  method ExpandAll(codes: seq<string>, sep: string, alphabet: string) returns (all: seq<string>)
    ensures all == Expand(codes, sep, alphabet)
  {
    all := [];
    var i := 0;
    while i < |codes|
      invariant 0 <= i <= |codes|
      invariant all == Expand(codes[..i], sep, alphabet)
    {
      assert codes[..i + 1][..i] == codes[..i];
      all := all + Children(codes[i], sep, alphabet);
      i := i + 1;
    }
    assert codes[..i] == codes;
  }

  /** LDU1: ten children per parent, each the parent, a '+' and a digit. */
  method GenerateLdu1Permutations(postalCodes: seq<string>) returns (all: seq<string>)
    ensures all == Expand(postalCodes, "+", ValidDigits)
    ensures |all| == 10 * |postalCodes|
    ensures forall k :: 0 <= k < |all| ==> all[k] == postalCodes[k / 10] + "+" + [ValidDigits[k % 10]]
  {
    all := ExpandAll(postalCodes, "+", ValidDigits);
    ExpandAt(postalCodes, "+", ValidDigits);
  }

  /** LDU2: twenty children per parent, each the parent and a valid letter. */
  method GenerateLdu2Permutations(postalCodes: seq<string>) returns (all: seq<string>)
    ensures all == Expand(postalCodes, "", ValidLetters)
    ensures |all| == 20 * |postalCodes|
    ensures forall k :: 0 <= k < |all| ==> all[k] == postalCodes[k / 20] + [ValidLetters[k % 20]]
  {
    all := ExpandAll(postalCodes, "", ValidLetters);
    ExpandAt(postalCodes, "", ValidLetters);
    forall k | 0 <= k < |all|
      ensures all[k] == postalCodes[k / 20] + [ValidLetters[k % 20]]
    {
      assert postalCodes[k / 20] + "" == postalCodes[k / 20];
    }
  }

  /** LDU3: ten children per parent, each the parent and a digit. */
  method GenerateLdu3Permutations(postalCodes: seq<string>) returns (all: seq<string>)
    ensures all == Expand(postalCodes, "", ValidDigits)
    ensures |all| == 10 * |postalCodes|
    ensures forall k :: 0 <= k < |all| ==> all[k] == postalCodes[k / 10] + [ValidDigits[k % 10]]
  {
    all := ExpandAll(postalCodes, "", ValidDigits);
    ExpandAt(postalCodes, "", ValidDigits);
    forall k | 0 <= k < |all|
      ensures all[k] == postalCodes[k / 10] + [ValidDigits[k % 10]]
    {
      assert postalCodes[k / 10] + "" == postalCodes[k / 10];
    }
  }

  // ---------------------------------------------------------------------------
  // Level dispatch

  datatype Level = Ldu1 | Ldu2 | Ldu3

  /** The separator and alphabet each level appends. */
  function Separator(level: Level): string
  {
    if level == Ldu1 then "+" else ""
  }

  function Alphabet(level: Level): string
  {
    if level == Ldu2 then ValidLetters else ValidDigits
  }

  /** Python's `str.lower` restricted to ASCII letters. */
  function Lower(s: string): (r: string)
    ensures |r| == |s|
    ensures forall i :: 0 <= i < |s| ==> r[i] == (if IsUpperAscii(s[i]) then (s[i] as int + 32) as char else s[i])
  {
    if s == [] then []
    else Lower(s[..|s| - 1]) + [if IsUpperAscii(s[|s| - 1]) then (s[|s| - 1] as int + 32) as char else s[|s| - 1]]
  }

  /** The level named by `level`, compared after lowering. */
  function ParseLevel(level: string): Option<Level>
  {
    var l := Lower(level);
    if l == "ldu1" then Some(Ldu1)
    else if l == "ldu2" then Some(Ldu2)
    else if l == "ldu3" then Some(Ldu3)
    else None
  }

  function InvalidLevelMessage(level: string): string
  {
    "Invalid level: " + level + ". Must be 'ldu1', 'ldu2', or 'ldu3'."
  }

  /** A level name is accepted exactly when it spells "ldu" in either case followed
      by the digit 1, 2 or 3; that digit selects the level. */
  lemma ParseLevelSpec(level: string)
    ensures ParseLevel(level).Some? <==>
              && |level| == 4
              && (level[0] == 'l' || level[0] == 'L')
              && (level[1] == 'd' || level[1] == 'D')
              && (level[2] == 'u' || level[2] == 'U')
              && (level[3] == '1' || level[3] == '2' || level[3] == '3')
    ensures ParseLevel(level) == Some(Ldu1) ==> level[3] == '1'
    ensures ParseLevel(level) == Some(Ldu2) ==> level[3] == '2'
    ensures ParseLevel(level) == Some(Ldu3) ==> level[3] == '3'
  {
    var l := Lower(level);
    if |level| == 4 {
      assert l == [l[0], l[1], l[2], l[3]];
    }
  }

  /** Generate the permutations of one level, or raise `ValueError` for an unknown level
      (the dispatch of generate_and_save_permutations, without the save). */
  method GeneratePermutations(postalCodes: seq<string>, level: string) returns (r: Result<seq<string>, string>)
    ensures ParseLevel(level).Some? ==>
              r == Success(Expand(postalCodes, Separator(ParseLevel(level).value), Alphabet(ParseLevel(level).value)))
    ensures ParseLevel(level).None? ==> r == Failure(InvalidLevelMessage(level))
  {
    var l := Lower(level);
    if l == "ldu1" {
      var p := GenerateLdu1Permutations(postalCodes);
      r := Success(p);
    } else if l == "ldu2" {
      var p := GenerateLdu2Permutations(postalCodes);
      r := Success(p);
    } else if l == "ldu3" {
      var p := GenerateLdu3Permutations(postalCodes);
      r := Success(p);
    } else {
      r := Failure(InvalidLevelMessage(level));
    }
  }

  // ---------------------------------------------------------------------------
  // True length and the level filter

  predicate NotPlus(c: char)
  {
    c != '+'
  }

  /** The length of a code once every '+' is removed. */
  function TrueLength(code: string): nat
  {
    |Filter(code, NotPlus)|
  }

  /** The true length a level requires of its inputs. */
  function RequiredLength(level: Level): nat
  {
    match level
    case Ldu1 => 3
    case Ldu2 => 4
    case Ldu3 => 5
  }

  function HasTrueLength(n: nat): string -> bool
  {
    code => TrueLength(code) == n
  }

  lemma TrueLengthAppend(a: string, b: string)
    ensures TrueLength(a + b) == TrueLength(a) + TrueLength(b)
  {
    FilterAppend(a, b, NotPlus);
  }

  /** Keep, in order, the codes whose true length is the one the level requires. */
  method FilterByTrueLength(postalCodes: seq<string>, level: Level) returns (filtered: seq<string>)
    ensures filtered == Filter(postalCodes, HasTrueLength(RequiredLength(level)))
    ensures forall c :: c in filtered <==> c in postalCodes && TrueLength(c) == RequiredLength(level)
  {
    var required := RequiredLength(level);
    filtered := [];
    var i := 0;
    while i < |postalCodes|
      invariant 0 <= i <= |postalCodes|
      invariant filtered == Filter(postalCodes[..i], HasTrueLength(required))
    {
      assert postalCodes[..i + 1][..i] == postalCodes[..i];
      if TrueLength(postalCodes[i]) == required {
        filtered := filtered + [postalCodes[i]];
      }
      i := i + 1;
    }
    assert postalCodes[..i] == postalCodes;
    FilterMembers(postalCodes, HasTrueLength(required));
  }

  /** Every child's true length is its parent's plus one, whichever level made it. */
  lemma ChildrenTrueLength(parent: string, level: Level)
    ensures forall x :: x in Children(parent, Separator(level), Alphabet(level)) ==>
              TrueLength(x) == TrueLength(parent) + 1
  {
    var sep, alphabet := Separator(level), Alphabet(level);
    Alphabets();
    assert Filter(sep, NotPlus) == [] by {
      if sep == "+" {
        assert sep[..0] == [];
      }
    }
    TrueLengthAppend(parent, sep);
    forall x | x in Children(parent, sep, alphabet)
      ensures TrueLength(x) == TrueLength(parent) + 1
    {
      var j :| 0 <= j < |alphabet| && Children(parent, sep, alphabet)[j] == x;
      var c := alphabet[j];
      assert c in alphabet;
      TrueLengthAppend(parent + sep, [c]);
      assert [c][..0] == [];
      assert Filter([c], NotPlus) == [c];
    }
  }

  /** Expanding parents that all have true length `m` gives children that all have
      true length `m + 1`. */
  lemma {:induction false} ExpandTrueLength(codes: seq<string>, level: Level, m: nat)
    requires forall c :: c in codes ==> TrueLength(c) == m
    ensures forall x :: x in Expand(codes, Separator(level), Alphabet(level)) ==> TrueLength(x) == m + 1
    decreases |codes|
  {
    if codes != [] {
      var init := codes[..|codes| - 1];
      assert forall c :: c in init ==> c in codes;
      ExpandTrueLength(init, level, m);
      assert codes[|codes| - 1] in codes;
      ChildrenTrueLength(codes[|codes| - 1], level);
    }
  }

  /** Children of parents of the true length one level requires all have the true
      length the next level requires, so that next level's filter keeps all of them. */
  lemma NextLevelKeepsChildren(codes: seq<string>, level: Level, next: Level)
    requires forall c :: c in codes ==> TrueLength(c) == RequiredLength(level)
    requires RequiredLength(next) == RequiredLength(level) + 1
    ensures Filter(Expand(codes, Separator(level), Alphabet(level)), HasTrueLength(RequiredLength(next)))
            == Expand(codes, Separator(level), Alphabet(level))
  {
    var e := Expand(codes, Separator(level), Alphabet(level));
    ExpandTrueLength(codes, level, RequiredLength(level));
    FilterAll(e, HasTrueLength(RequiredLength(next)));
  }

  /** Rendered lengths: one expansion from a parent of rendered length `m` gives
      children of rendered length `m + |sep| + 1`; from a 3-character area this is
      5 after LDU1, 6 after LDU2 and 7 after LDU3. */
  lemma {:induction false} ExpandLength(codes: seq<string>, level: Level, m: nat)
    requires forall c :: c in codes ==> |c| == m
    ensures forall x :: x in Expand(codes, Separator(level), Alphabet(level)) ==>
              |x| == m + |Separator(level)| + 1
    decreases |codes|
  {
    if codes != [] {
      var init := codes[..|codes| - 1];
      var last := codes[|codes| - 1];
      assert forall c :: c in init ==> c in codes;
      ExpandLength(init, level, m);
      assert last in codes;
      ChildrenLength(last, Separator(level), Alphabet(level));
    }
  }

  lemma ChildrenLength(code: string, sep: string, alphabet: string)
    ensures forall x :: x in Children(code, sep, alphabet) ==> |x| == |code| + |sep| + 1
  {
    var kids := Children(code, sep, alphabet);
    forall x | x in kids
      ensures |x| == |code| + |sep| + 1
    {
      var j :| 0 <= j < |kids| && kids[j] == x;
    }
  }

  // ---------------------------------------------------------------------------
  // Loading the codes to refine

  /** One entry of a JSON input list: an object with `postal_code` and perhaps
      `totalcount`, or a plain code string. */
  datatype JsonItem = Entry(postalCode: string, totalcount: Option<int>) | Plain(code: string)

  /** One row of a CSV input: its `postal_code` cell, or its first cell when the
      table has no `postal_code` column, and its `totalcount` (None when the cell
      is empty or the column is missing). */
  datatype CsvRow = CsvRow(postalCode: string, totalcount: Option<int>)

  datatype InputFile =
    | JsonFile(items: seq<JsonItem>)
      /** `hasBothColumns`: the table has both a `postal_code` and a `totalcount` column */
    | CsvFile(hasBothColumns: bool, rows: seq<CsvRow>)
      /** a file of another extension, or one that cannot be read or parsed */
    | OtherFile

  predicate IsCappedItem(item: JsonItem)
  {
    item.Entry? && item.totalcount == Some(-1)
  }

  predicate IsCappedRow(row: CsvRow)
  {
    row.totalcount == Some(-1)
  }

  function ItemCode(item: JsonItem): string
  {
    match item
    case Entry(code, _) => code
    case Plain(code) => code
  }

  function ItemCodes(items: seq<JsonItem>): seq<string>
  {
    seq(|items|, k requires 0 <= k < |items| => ItemCode(items[k]))
  }

  function RowCodes(rows: seq<CsvRow>): seq<string>
  {
    seq(|rows|, k requires 0 <= k < |rows| => rows[k].postalCode)
  }

  /** The codes the loader is meant to return: from a JSON list of plain codes,
      the list itself; from a JSON list holding objects, the codes of the entries
      whose totalcount is -1, in order; from a table with both columns, the codes
      of the rows whose totalcount is -1, in order; from any other table, every
      code; and nothing from a file it cannot read. */
  function LoadedCodes(input: InputFile): seq<string>
  {
    match input
    case JsonFile(items) =>
      if forall k :: 0 <= k < |items| ==> items[k].Plain? then ItemCodes(items)
      else ItemCodes(Filter(items, IsCappedItem))
    case CsvFile(hasBothColumns, rows) =>
      if hasBothColumns then RowCodes(Filter(rows, IsCappedRow)) else RowCodes(rows)
    case OtherFile => []
  }

  /** load_postal_codes over an in-memory input, with its JSON branch as it is
      meant to work (see LoadJsonAsWritten for the branch as it is written). */
  method LoadPostalCodes(input: InputFile) returns (codes: seq<string>)
    ensures codes == LoadedCodes(input)
  {
    match input
    case JsonFile(items) =>
      var capped: seq<JsonItem> := [];
      var allPlain := true;
      var i := 0;
      while i < |items|
        invariant 0 <= i <= |items|
        invariant capped == Filter(items[..i], IsCappedItem)
        invariant allPlain <==> forall k :: 0 <= k < i ==> items[k].Plain?
      {
        assert items[..i + 1][..i] == items[..i];
        if IsCappedItem(items[i]) {
          capped := capped + [items[i]];
        }
        if !items[i].Plain? {
          allPlain := false;
        }
        i := i + 1;
      }
      assert items[..i] == items;
      if allPlain {
        codes := ItemCodes(items);
      } else {
        codes := ItemCodes(capped);
      }
    case CsvFile(hasBothColumns, rows) =>
      if hasBothColumns {
        codes := RowCodes(Filter(rows, IsCappedRow));
      } else {
        codes := RowCodes(rows);
      }
    case OtherFile =>
      codes := [];
  }

  /** From a table with both columns, and from a JSON list holding objects, the
      loader returns, in input order, exactly the codes of the entries whose
      totalcount is -1; a JSON list of plain codes comes back unchanged. */
  lemma LoadedCodesSpec(input: InputFile)
    ensures input.CsvFile? && input.hasBothColumns ==>
              var kept := FilterIndices(input.rows, IsCappedRow);
              && |LoadedCodes(input)| == |kept|
              && (forall k :: 0 <= k < |kept| ==>
                    kept[k] < |input.rows| && LoadedCodes(input)[k] == input.rows[kept[k]].postalCode)
              && (forall k, l :: 0 <= k < l < |kept| ==> kept[k] < kept[l])
              && (forall i :: 0 <= i < |input.rows| ==> (i in kept <==> input.rows[i].totalcount == Some(-1)))
    ensures input.JsonFile? && (exists k :: 0 <= k < |input.items| && input.items[k].Entry?) ==>
              var kept := FilterIndices(input.items, IsCappedItem);
              && |LoadedCodes(input)| == |kept|
              && (forall k :: 0 <= k < |kept| ==>
                    && kept[k] < |input.items| && IsCappedItem(input.items[kept[k]])
                    && LoadedCodes(input)[k] == input.items[kept[k]].postalCode)
              && (forall k, l :: 0 <= k < l < |kept| ==> kept[k] < kept[l])
              && (forall i :: 0 <= i < |input.items| ==> (i in kept <==> IsCappedItem(input.items[i])))
    ensures input.JsonFile? && (forall k :: 0 <= k < |input.items| ==> input.items[k].Plain?) ==>
              LoadedCodes(input) == seq(|input.items|, k requires 0 <= k < |input.items| => input.items[k].code)
  {
    match input
    case CsvFile(hasBothColumns, rows) =>
      if hasBothColumns {
        FilterSelects(rows, IsCappedRow);
      }
    case JsonFile(items) =>
      if forall k :: 0 <= k < |items| ==> items[k].Plain? {
        assert ItemCodes(items) == seq(|items|, k requires 0 <= k < |items| => items[k].code);
      } else {
        FilterSelects(items, IsCappedItem);
        var kept := FilterIndices(items, IsCappedItem);
        forall k | 0 <= k < |kept|
          ensures ItemCodes(Filter(items, IsCappedItem))[k] == items[kept[k]].postalCode
        {
          assert IsCappedItem(items[kept[k]]);
        }
      }
    case OtherFile =>
  }

  // ---------------------------------------------------------------------------
  // The JSON branch of the loader as it is written

  /** The position of the first JSON entry that is not a capped object, or the
      length of the list when there is none. */
  function FirstUncapped(items: seq<JsonItem>): (r: nat)
    ensures r <= |items|
    ensures forall k :: 0 <= k < r ==> IsCappedItem(items[k])
    ensures r < |items| ==> !IsCappedItem(items[r])
    decreases |items|
  {
    if items == [] || !IsCappedItem(items[0]) then 0 else 1 + FirstUncapped(items[1..])
  }

  /** Each entry replaced by its code, as a JSON string. */
  function PlainCodes(items: seq<JsonItem>): seq<JsonItem>
    decreases |items|
  {
    if items == [] then []
    else PlainCodes(items[..|items| - 1]) + [Plain(ItemCode(items[|items| - 1]))]
  }

  /** What the JSON branch returns as written. While every entry so far is a
      capped object, their codes collect in a fresh list. The first other entry
      rebinds the result to the input list itself; each later capped object then
      appends its code to the input list, which the loop goes on to visit. So a
      list that is not all capped objects comes back whole, objects included,
      followed by the codes of the capped objects after that first entry. */
  function JsonLoadAsWritten(items: seq<JsonItem>): seq<JsonItem>
  {
    var f := FirstUncapped(items);
    if f == |items| then PlainCodes(items)
    else items + PlainCodes(Filter(items[f + 1..], IsCappedItem))
  }

  /** The JSON loop of load_postal_codes as written; `rebound` records that the
      result names the same list as `data`, so appending to it grows `data`. */
  method LoadJsonAsWritten(items: seq<JsonItem>) returns (loaded: seq<JsonItem>)
    ensures loaded == JsonLoadAsWritten(items)
  {
    var data := items;
    var postalCodes: seq<JsonItem> := [];
    var rebound := false;
    var f := FirstUncapped(items);
    var i := 0;
    while i < |data|
      invariant i <= |data| <= 2 * |items|
      invariant AsWrittenAt(items, f, i, data, postalCodes, rebound)
      decreases 2 * |items| - i
    {
      var item := data[i];
      if IsCappedItem(item) {
        if rebound {
          CappedAfterRebind(items, f, i, data, postalCodes);
          data := data + [Plain(item.postalCode)];
        } else {
          CappedBeforeRebind(items, f, i, postalCodes);
          postalCodes := postalCodes + [Plain(item.postalCode)];
        }
      } else if !rebound {
        FirstUncappedRebinds(items, f, i, postalCodes);
        rebound := true;
      } else {
        UncappedAfterRebind(items, f, i, data, postalCodes);
      }
      i := i + 1;
    }
    AsWrittenEnd(items, f, i, data, postalCodes, rebound);
    loaded := if rebound then data else postalCodes;
  }

  function Min(a: int, b: int): int
  {
    if a < b then a else b
  }

  /** The state of the as-written loop once it has visited the first i entries
      of `data`: before the rebinding `data` is the input and the fresh list
      holds the codes seen so far; after it, `data` is the input followed by the
      codes of the capped entries visited after the first other entry. */
  ghost predicate AsWrittenAt(items: seq<JsonItem>, f: nat, i: nat, data: seq<JsonItem>,
                              postalCodes: seq<JsonItem>, rebound: bool)
  {
    && f == FirstUncapped(items)
    && i <= |data| <= 2 * |items|
    && (!rebound ==> i <= f && data == items && postalCodes == PlainCodes(items[..i]))
    && (rebound ==>
          && f < |items| && f < i
          && data == items + PlainCodes(Filter(items[f + 1..Min(i, |items|)], IsCappedItem))
          && |data| + f + 1 <= |items| + Min(i, |items|))
  }

  /** Before the rebinding, a capped entry's code joins the fresh list. */
  lemma CappedBeforeRebind(items: seq<JsonItem>, f: nat, i: nat, postalCodes: seq<JsonItem>)
    requires AsWrittenAt(items, f, i, items, postalCodes, false)
    requires i < |items| && IsCappedItem(items[i])
    ensures AsWrittenAt(items, f, i + 1, items, postalCodes + [Plain(items[i].postalCode)], false)
  {
    assert items[..i + 1][..i] == items[..i];
  }

  /** The first entry that is not a capped object rebinds the result to the
      input list, to which nothing has been appended yet. */
  lemma FirstUncappedRebinds(items: seq<JsonItem>, f: nat, i: nat, postalCodes: seq<JsonItem>)
    requires AsWrittenAt(items, f, i, items, postalCodes, false)
    requires i < |items| && !IsCappedItem(items[i])
    ensures AsWrittenAt(items, f, i + 1, items, postalCodes, true)
  {
    assert items[f + 1..Min(i + 1, |items|)] == [];
  }

  /** After the rebinding, a capped entry can only be one of the input's own
      entries (the appended codes are plain strings), and visiting it appends
      its code behind the codes appended so far. */
  lemma CappedAfterRebind(items: seq<JsonItem>, f: nat, i: nat, data: seq<JsonItem>,
                          postalCodes: seq<JsonItem>)
    requires AsWrittenAt(items, f, i, data, postalCodes, true)
    requires i < |data| && IsCappedItem(data[i])
    ensures i < |items| && data[i] == items[i]
    ensures AsWrittenAt(items, f, i + 1, data + [Plain(data[i].postalCode)], postalCodes, true)
  {
    CappedIsInput(items, f, i, data);
    assert Min(i, |items|) == i && Min(i + 1, |items|) == i + 1;
    AppendAfterRebind(items, f, i, data);
  }

  lemma AppendAfterRebind(items: seq<JsonItem>, f: nat, i: nat, data: seq<JsonItem>)
    requires f < i < |items| && IsCappedItem(items[i])
    requires data == items + PlainCodes(Filter(items[f + 1..i], IsCappedItem))
    ensures data + [Plain(items[i].postalCode)] == items + PlainCodes(Filter(items[f + 1..i + 1], IsCappedItem))
  {
    assert items[f + 1..i + 1] == items[f + 1..i] + [items[i]];
    CappedCodesSnoc(items[f + 1..i], items[i]);
  }

  /** A capped entry adds its code behind the codes of the capped entries before it. */
  lemma CappedCodesSnoc(seen: seq<JsonItem>, x: JsonItem)
    requires IsCappedItem(x)
    ensures PlainCodes(Filter(seen + [x], IsCappedItem)) == PlainCodes(Filter(seen, IsCappedItem)) + [Plain(x.postalCode)]
  {
    FilterSnocCapped(seen + [x], seen, x);
    PlainCodesSnoc(Filter(seen, IsCappedItem), x);
  }

  /** After the rebinding the entries past the input are plain strings. */
  lemma CappedIsInput(items: seq<JsonItem>, f: nat, i: nat, data: seq<JsonItem>)
    requires f < |items| && f < i < |data|
    requires data == items + PlainCodes(Filter(items[f + 1..Min(i, |items|)], IsCappedItem))
    requires IsCappedItem(data[i])
    ensures i < |items| && data[i] == items[i]
  {
    if i >= |items| {
      assert items[f + 1..Min(i, |items|)] == items[f + 1..];
      PlainCodesShape(Filter(items[f + 1..], IsCappedItem));
      assert false;
    }
  }

  lemma FilterSnocCapped(s: seq<JsonItem>, init: seq<JsonItem>, x: JsonItem)
    requires s == init + [x]
    ensures Filter(s, IsCappedItem) == Filter(init, IsCappedItem) + (if IsCappedItem(x) then [x] else [])
  {
    assert s[..|s| - 1] == init;
  }

  lemma PlainCodesSnoc(s: seq<JsonItem>, x: JsonItem)
    ensures PlainCodes(s + [x]) == PlainCodes(s) + [Plain(ItemCode(x))]
  {
    assert (s + [x])[..|s|] == s;
  }

  /** After the rebinding, an entry that is not capped changes nothing. */
  lemma UncappedAfterRebind(items: seq<JsonItem>, f: nat, i: nat, data: seq<JsonItem>,
                            postalCodes: seq<JsonItem>)
    requires AsWrittenAt(items, f, i, data, postalCodes, true)
    requires i < |data| && !IsCappedItem(data[i])
    ensures AsWrittenAt(items, f, i + 1, data, postalCodes, true)
  {
    if i < |items| {
      assert Min(i, |items|) == i && Min(i + 1, |items|) == i + 1;
      assert data[i] == items[i];
      FilterSnocCapped(items[f + 1..i + 1], items[f + 1..i], items[i]);
      assert Filter(items[f + 1..i + 1], IsCappedItem) == Filter(items[f + 1..i], IsCappedItem);
    } else {
      assert Min(i + 1, |items|) == Min(i, |items|);
    }
  }

  /** Once the loop has run off the end of `data`, the result is the one the
      as-written branch describes. */
  lemma AsWrittenEnd(items: seq<JsonItem>, f: nat, i: nat, data: seq<JsonItem>,
                     postalCodes: seq<JsonItem>, rebound: bool)
    requires AsWrittenAt(items, f, i, data, postalCodes, rebound) && i >= |data|
    ensures (if rebound then data else postalCodes) == JsonLoadAsWritten(items)
  {
    if rebound {
      assert items[f + 1..Min(i, |items|)] == items[f + 1..];
    } else {
      assert items[..i] == items;
    }
  }

  lemma {:induction false} PlainCodesShape(items: seq<JsonItem>)
    ensures |PlainCodes(items)| == |items|
    ensures forall k :: 0 <= k < |items| ==> PlainCodes(items)[k] == Plain(ItemCode(items[k]))
    decreases |items|
  {
    if items != [] {
      PlainCodesShape(items[..|items| - 1]);
    }
  }

  /** Where the JSON list is uniform, all capped objects or all plain codes, the
      loader as written returns the intended codes (as JSON strings). */
  lemma {:induction false} AsWrittenAgreesOnUniformLists(items: seq<JsonItem>)
    requires (forall k :: 0 <= k < |items| ==> IsCappedItem(items[k]))
          || (forall k :: 0 <= k < |items| ==> items[k].Plain?)
    ensures |JsonLoadAsWritten(items)| == |LoadedCodes(JsonFile(items))|
    ensures forall k :: 0 <= k < |JsonLoadAsWritten(items)| ==>
              JsonLoadAsWritten(items)[k] == Plain(LoadedCodes(JsonFile(items))[k])
  {
    PlainCodesShape(items);
    if forall k :: 0 <= k < |items| ==> IsCappedItem(items[k]) {
      FilterAll(items, IsCappedItem);
    } else {
      var f := FirstUncapped(items);
      if f < |items| {
        PlainCodesShape(Filter(items[f + 1..], IsCappedItem));
        FilterNone(items[f + 1..], IsCappedItem);
      }
    }
  }

  /** A JSON summary list with one entry that is not capped followed by a capped
      one: the loader as written returns both objects and then the capped code,
      where the intended result is the capped code alone. */
  lemma MixedJsonListKeepsObjects()
    ensures var items := [Entry("K1A", Some(5)), Entry("K1B", Some(-1))];
      && JsonLoadAsWritten(items) == [Entry("K1A", Some(5)), Entry("K1B", Some(-1)), Plain("K1B")]
      && LoadedCodes(JsonFile(items)) == ["K1B"]
  {
    MixedAsWritten([Entry("K1A", Some(5)), Entry("K1B", Some(-1))]);
    MixedIntended(Entry("K1A", Some(5)), Entry("K1B", Some(-1)));
  }

  /** A list whose first entry is not a capped object comes back whole, followed
      by the codes of the capped objects after it. */
  lemma FirstEntryUncapped(items: seq<JsonItem>)
    requires items != [] && !IsCappedItem(items[0])
    ensures JsonLoadAsWritten(items) == items + PlainCodes(Filter(items[1..], IsCappedItem))
  {
    assert FirstUncapped(items) == 0;
  }

  /** As written, an object that is not capped followed by a capped one comes
      back whole, followed by the capped code. */
  lemma MixedAsWritten(items: seq<JsonItem>)
    requires |items| == 2 && !IsCappedItem(items[0]) && IsCappedItem(items[1])
    ensures JsonLoadAsWritten(items) == items + [Plain(ItemCode(items[1]))]
  {
    FirstEntryUncapped(items);
    var rest := items[1..];
    FilterAll(rest, IsCappedItem);
    assert rest == [] + [items[1]];
    PlainCodesSnoc([], items[1]);
  }

  /** As intended, the same list gives the capped code alone. */
  lemma MixedIntended(open: JsonItem, capped: JsonItem)
    requires open.Entry? && !IsCappedItem(open) && IsCappedItem(capped)
    ensures LoadedCodes(JsonFile([open, capped])) == [ItemCode(capped)]
  {
    var items := [open, capped];
    assert !items[0].Plain?;
    FilterSnocCapped([open], [], open);
    FilterSnocCapped(items, [open], capped);
    assert ItemCodes([capped]) == [ItemCode(capped)];
  }
}
