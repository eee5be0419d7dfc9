/**
 * The morphological-segmentation loader: rows of delimited text become a
 * dataset mapping each item (a word) to its coders, and each coder to the
 * masses (morpheme lengths) of that coder's segmentation of the word.
 *
 * Column 0 of a row is the item, column 1 a comma-separated list of
 * segmentation options, each a space-separated sequence of morphemes.
 * Option 0 is stored under the base coder name, option i > 0 under the base
 * name followed by the decimal numeral of i + 1.
 */
module Morpheme {
  import opened Wrappers
  import opened Text

  /** The base coder name used when the file holds the reference segmentation. */
  const CODER_REFERENCE: string := "reference"

  /** Coder name to masses, for one item. */
  type Coders = map<string, seq<nat>>

  /** Item to coders: the content of a dataset. */
  type Items = map<string, Coders>

  // ------------------------------------------------------------ one option

  /** The base coder name: `reference` in reference mode, else the name taken from the file path. */
  function BaseCoder(referenceCoder: bool, nameFromPath: string): string
  {
    if referenceCoder then CODER_REFERENCE else nameFromPath
  }

  /** The segmentation options of column 1: split on commas, each stripped. */
  function Options(col: string): (options: seq<string>)
    ensures |options| == Count(col, ',') + 1
  {
    StripAll(Split(col, ','))
  }

  /** Each piece stripped, in order. */
  function StripAll(pieces: seq<string>): (stripped: seq<string>)
    ensures |stripped| == |pieces|
  {
    if pieces == [] then [] else [Strip(pieces[0])] + StripAll(pieces[1..])
  }

  /** Option `i` is piece `i` of column 1, stripped: it has no comma and no outer whitespace. */
  lemma OptionAt(col: string, i: nat)
    requires i < Count(col, ',') + 1
    ensures Options(col)[i] == Strip(Split(col, ',')[i])
    ensures ',' !in Options(col)[i]
  {
    var piece := Split(col, ',')[i];
    StripAllAt(Split(col, ','), i);
    SplitPiecesFree(col, ',');
    StripIsInfix(piece);
    assert ',' !in piece;
  }

  lemma {:induction false} StripAllAt(pieces: seq<string>, i: nat)
    requires i < |pieces|
    ensures StripAll(pieces)[i] == Strip(pieces[i])
  {
    if i > 0 {
      StripAllAt(pieces[1..], i - 1);
    }
  }

  /** The masses of one option: the length of each space-separated morpheme. */
  function Masses(option: string): (masses: seq<nat>)
    ensures |masses| == Count(option, ' ') + 1
  {
    Lengths(Split(option, ' '))
  }

  /** One mass per morpheme of `option.split(' ')`: entry k is the length of morpheme k. */
  lemma MassesArePieceLengths(option: string)
    ensures |Masses(option)| == |Split(option, ' ')|
    ensures forall k :: 0 <= k < |Masses(option)| ==> Masses(option)[k] == |Split(option, ' ')[k]|
  {
    forall k | 0 <= k < |Masses(option)| ensures Masses(option)[k] == |Split(option, ' ')[k]| {
      LengthsAt(Split(option, ' '), k);
    }
  }

  /** The coder key of option `i`. */
  function CoderKey(base: string, i: nat): (key: string)
    ensures |key| == |base| <==> i == 0
  {
    if i == 0 then base else base + Decimal(i + 1)
  }

  /** Every key begins with the base coder name. */
  lemma CoderKeyPrefix(base: string, i: nat)
    ensures |base| <= |CoderKey(base, i)| && CoderKey(base, i)[..|base|] == base
  {
  }

  /** The keys written for a row with `n` options. */
  function RowKeys(base: string, n: nat): set<string>
  {
    set i | 0 <= i < n :: CoderKey(base, i)
  }

  // --------------------------------------------------- properties of options

  /**
   * The masses account for the whole option: their sum plus one space
   * between each two morphemes is the length of the option.
   */
  lemma MassesCoverOption(option: string)
    ensures Sum(Masses(option)) + |Masses(option)| - 1 == |option|
  {
    JoinSplit(option, ' ');
    JoinLength(Split(option, ' '), ' ');
  }

  /**
   * The morphemes of option `i`, joined back with single spaces, give the
   * stripped text of that option.
   */
  lemma MorphemesRejoin(col: string, i: nat)
    requires i < Count(col, ',') + 1
    ensures Join(Split(Options(col)[i], ' '), ' ') == Strip(Split(col, ',')[i])
  {
    OptionAt(col, i);
    JoinSplit(Options(col)[i], ' ');
  }

  /**
   * Any string has a zero mass exactly when one of its morphemes is empty
   * (an empty string, a doubled space, a leading or trailing space). The
   * options the loader splits are stripped first, so for them only the
   * first two occur: see `OptionZeroMass`.
   */
  lemma ZeroMassIffEmptyMorpheme(option: string)
    ensures 0 in Masses(option) <==> "" in Split(option, ' ')
  {
    var pieces, masses := Split(option, ' '), Masses(option);
    MassesArePieceLengths(option);
    if 0 in masses {
      var k :| 0 <= k < |masses| && masses[k] == 0;
      assert pieces[k] == "";
    }
    if "" in pieces {
      var k :| 0 <= k < |pieces| && pieces[k] == "";
      assert masses[k] == 0;
    }
  }

  /** An option never starts or ends with whitespace: it is stripped before it is split into morphemes. */
  lemma OptionTrimmed(col: string, i: nat)
    requires i < Count(col, ',') + 1
    ensures var option := Options(col)[i];
      option == [] || (!IsSpace(option[0]) && !IsSpace(option[|option| - 1]))
  {
    OptionAt(col, i);
    StripIsInfix(Split(col, ',')[i]);
  }

  /** A loaded option has a zero mass exactly when it is empty or holds two spaces in a row. */
  lemma OptionZeroMass(col: string, i: nat)
    requires i < Count(col, ',') + 1
    ensures var option := Options(col)[i];
      0 in Masses(option) <==>
        option == [] || exists j :: 0 <= j < |option| - 1 && option[j] == ' ' && option[j + 1] == ' '
  {
    var option := Options(col)[i];
    var pieces := Split(option, ' ');
    OptionTrimmed(col, i);
    ZeroMassIffEmptyMorpheme(option);
    FirstPieceEmpty(option, ' ');
    LaterPieceEmpty(option, ' ');
    assert pieces == [pieces[0]] + pieces[1..];
    if option != [] {
      if exists j :: EmptyPieceAfter(option, ' ', j) {
        var j :| EmptyPieceAfter(option, ' ', j);
        assert j < |option| - 1 && option[j] == ' ' && option[j + 1] == ' ';
      }
      if exists j :: 0 <= j < |option| - 1 && option[j] == ' ' && option[j + 1] == ' ' {
        var j :| 0 <= j < |option| - 1 && option[j] == ' ' && option[j + 1] == ' ';
        assert EmptyPieceAfter(option, ' ', j);
      }
    }
  }

  /** Option 1 and onwards carry the numeral of their position plus one. */
  lemma CoderKeySuffix(base: string, i: nat)
    requires i > 0
    ensures var suffix := CoderKey(base, i)[|base|..];
      AllDigits(suffix) && DigitsValue(suffix) == i + 1
  {
    assert CoderKey(base, i)[|base|..] == Decimal(i + 1);
    DecimalRoundTrip(i + 1);
  }

  /** No option is stored under the suffix "1". */
  lemma NoSuffixOne(base: string, i: nat)
    ensures CoderKey(base, i) != base + "1"
  {
    if i > 0 {
      CoderKeySuffix(base, i);
      assert DigitsValue("1") == 1;
      assert (base + "1")[|base|..] == "1";
    }
  }

  /** The options of one row are stored under pairwise distinct keys. */
  lemma CoderKeysDistinct(base: string, i: nat, j: nat)
    requires i != j
    ensures CoderKey(base, i) != CoderKey(base, j)
  {
    if i > 0 && j > 0 && CoderKey(base, i) == CoderKey(base, j) {
      assert CoderKey(base, i)[|base|..] == Decimal(i + 1);
      assert CoderKey(base, j)[|base|..] == Decimal(j + 1);
      DecimalInjective(i + 1, j + 1);
    }
  }

  /** The keys of `n + 1` options are those of `n` options plus the new, different, key `n`. */
  lemma RowKeysGrow(base: string, n: nat)
    ensures RowKeys(base, n + 1) == RowKeys(base, n) + {CoderKey(base, n)}
    ensures CoderKey(base, n) !in RowKeys(base, n)
  {
    if CoderKey(base, n) in RowKeys(base, n) {
      var i :| 0 <= i < n && CoderKey(base, i) == CoderKey(base, n);
      CoderKeysDistinct(base, i, n);
    }
  }

  /** A row with `n` options writes exactly `n` different keys. */
  lemma {:induction false} RowKeysCount(base: string, n: nat)
    ensures |RowKeys(base, n)| == n
  {
    if n > 0 {
      RowKeysCount(base, n - 1);
      RowKeysGrow(base, n - 1);
    }
  }

  /** The number of keys a row writes is the number of commas in column 1 plus one. */
  lemma KeysPerRow(base: string, col: string)
    ensures |RowKeys(base, |Options(col)|)| == Count(col, ',') + 1
  {
    RowKeysCount(base, |Options(col)|);
  }

  // ------------------------------------------------------------- one row

  /** The coders already recorded for `item` (none if the item is absent). */
  function CodersOf(items: Items, item: string): Coders
  {
    if item in items then items[item] else map[]
  }

  /** The coders of an item after writing the first `n` options, in order. */
  function WriteOptions(coders: Coders, base: string, options: seq<string>, n: nat): Coders
    requires n <= |options|
  {
    if n == 0 then coders
    else WriteOptions(coders, base, options, n - 1)[CoderKey(base, n - 1) := Masses(options[n - 1])]
  }

  /** Writing the options adds exactly the row's keys. */
  lemma {:induction false} WriteOptionsKeys(coders: Coders, base: string, options: seq<string>, n: nat)
    requires n <= |options|
    ensures WriteOptions(coders, base, options, n).Keys == coders.Keys + RowKeys(base, n)
  {
    if n > 0 {
      WriteOptionsKeys(coders, base, options, n - 1);
      RowKeysGrow(base, n - 1);
    }
  }

  /** After writing the options, key `i` holds the masses of option `i`. */
  lemma {:induction false} WriteOptionsValues(coders: Coders, base: string, options: seq<string>, n: nat)
    requires n <= |options|
    ensures forall i :: 0 <= i < n ==>
      CoderKey(base, i) in WriteOptions(coders, base, options, n)
      && WriteOptions(coders, base, options, n)[CoderKey(base, i)] == Masses(options[i])
  {
    if n > 0 {
      WriteOptionsValues(coders, base, options, n - 1);
      var prev, after := WriteOptions(coders, base, options, n - 1), WriteOptions(coders, base, options, n);
      var key := CoderKey(base, n - 1);
      assert after == prev[key := Masses(options[n - 1])];
      forall i | 0 <= i < n - 1
        ensures CoderKey(base, i) in after && after[CoderKey(base, i)] == Masses(options[i])
      {
        CoderKeysDistinct(base, i, n - 1);
      }
    }
  }

  /** Writing the options keeps every coder the row does not write. */
  lemma {:induction false} WriteOptionsFrame(coders: Coders, base: string, options: seq<string>, n: nat)
    requires n <= |options|
    ensures forall k :: k in coders && k !in RowKeys(base, n) ==>
      k in WriteOptions(coders, base, options, n) && WriteOptions(coders, base, options, n)[k] == coders[k]
  {
    if n > 0 {
      WriteOptionsFrame(coders, base, options, n - 1);
      RowKeysGrow(base, n - 1);
    }
  }

  /** Writes every option of a row under its key for `item`, creating the item if absent. */
  function WriteRow(items: Items, base: string, item: string, options: seq<string>): Items
  {
    items[item := WriteOptions(CodersOf(items, item), base, options, |options|)]
  }

  /**
   * What writing a row's options does: `item` is present; option i's masses
   * are stored under key i; the item keeps every coder the row does not
   * write; every other item is untouched.
   */
  lemma WriteRowEffect(items: Items, base: string, item: string, options: seq<string>)
    ensures var r, before := WriteRow(items, base, item, options), CodersOf(items, item);
      && r.Keys == items.Keys + {item}
      && r[item].Keys == before.Keys + RowKeys(base, |options|)
      && (forall i :: 0 <= i < |options| ==>
            CoderKey(base, i) in r[item] && r[item][CoderKey(base, i)] == Masses(options[i]))
      && (forall k :: k in before && k !in RowKeys(base, |options|) ==> k in r[item] && r[item][k] == before[k])
      && (forall other :: other in items && other != item ==> r[other] == items[other])
  {
    var coders := CodersOf(items, item);
    WriteOptionsKeys(coders, base, options, |options|);
    WriteOptionsValues(coders, base, options, |options|);
    WriteOptionsFrame(coders, base, options, |options|);
  }

  /**
   * Two rows for the same item: the second row's keys hold its masses (the
   * last write wins), keys only the first row wrote keep the first row's
   * masses, and coders neither wrote survive.
   */
  lemma WriteTwice(items: Items, base: string, item: string, first: seq<string>, second: seq<string>)
    ensures var after, before := WriteRow(WriteRow(items, base, item, first), base, item, second), CodersOf(items, item);
      && item in after
      && (forall i :: 0 <= i < |second| ==>
            CoderKey(base, i) in after[item] && after[item][CoderKey(base, i)] == Masses(second[i]))
      && (forall i :: |second| <= i < |first| ==>
            CoderKey(base, i) in after[item] && after[item][CoderKey(base, i)] == Masses(first[i]))
      && (forall k :: k in before && k !in RowKeys(base, |first|) && k !in RowKeys(base, |second|) ==>
            k in after[item] && after[item][k] == before[k])
  {
    var mid := WriteRow(items, base, item, first);
    WriteRowEffect(items, base, item, first);
    WriteRowEffect(mid, base, item, second);
    assert CodersOf(mid, item) == mid[item];
    forall i | |second| <= i < |first|
      ensures CoderKey(base, i) !in RowKeys(base, |second|)
    {
      forall j | 0 <= j < |second| ensures CoderKey(base, j) != CoderKey(base, i) {
        CoderKeysDistinct(base, j, i);
      }
    }
  }

  /**
   * One row: a row with fewer than two columns changes nothing; otherwise
   * the options of column 1 are written for the item in column 0. Columns
   * from index 2 on are not looked at.
   */
  function ApplyRow(items: Items, base: string, row: seq<string>): Items
  {
    if |row| < 2 then items else WriteRow(items, base, row[0], Options(row[1]))
  }

  /**
   * What a row of at least two columns does: the item in column 0, verbatim,
   * is present; option i of column 1 is stored under key i; the item keeps
   * every coder the row does not write; every other item is untouched.
   */
  lemma ApplyRowEffect(items: Items, base: string, row: seq<string>)
    requires |row| >= 2
    ensures var r, options, before := ApplyRow(items, base, row), Options(row[1]), CodersOf(items, row[0]);
      && r.Keys == items.Keys + {row[0]}
      && r[row[0]].Keys == before.Keys + RowKeys(base, |options|)
      && (forall i :: 0 <= i < |options| ==>
            CoderKey(base, i) in r[row[0]] && r[row[0]][CoderKey(base, i)] == Masses(options[i]))
      && (forall k :: k in before && k !in RowKeys(base, |options|) ==> k in r[row[0]] && r[row[0]][k] == before[k])
      && (forall item :: item in items && item != row[0] ==> r[item] == items[item])
  {
    WriteRowEffect(items, base, row[0], Options(row[1]));
  }

  /**
   * Two rows for the same item, one after the other: the later row's keys
   * hold its masses, keys only the earlier row wrote keep the earlier
   * masses, and coders neither row wrote survive.
   */
  lemma LastWriteWins(items: Items, base: string, first: seq<string>, second: seq<string>)
    requires |first| >= 2 && |second| >= 2 && first[0] == second[0]
    ensures var item, o1, o2 := first[0], Options(first[1]), Options(second[1]);
      var after, before := ApplyRow(ApplyRow(items, base, first), base, second), CodersOf(items, item);
      && item in after
      && (forall i :: 0 <= i < |o2| ==>
            CoderKey(base, i) in after[item] && after[item][CoderKey(base, i)] == Masses(o2[i]))
      && (forall i :: |o2| <= i < |o1| ==>
            CoderKey(base, i) in after[item] && after[item][CoderKey(base, i)] == Masses(o1[i]))
      && (forall k :: k in before && k !in RowKeys(base, |o1|) && k !in RowKeys(base, |o2|) ==>
            k in after[item] && after[item][k] == before[k])
  {
    WriteTwice(items, base, first[0], Options(first[1]), Options(second[1]));
  }

  // ------------------------------------------------------------ all rows

  /** The rows applied in order to `items`. */
  function ApplyRows(items: Items, base: string, rows: seq<seq<string>>): Items
  {
    if rows == [] then items
    else ApplyRow(ApplyRows(items, base, rows[..|rows| - 1]), base, rows[|rows| - 1])
  }

  /** The items a whole file yields, starting from an empty dataset. */
  function Load(base: string, rows: seq<seq<string>>): Items
  {
    ApplyRows(map[], base, rows)
  }

  /** An item's coders as loading leaves them: at least one coder, each with at least one mass. */
  predicate CodersWellFormed(coders: Coders)
  {
    |coders| > 0 && forall coder :: coder in coders ==> |coders[coder]| > 0
  }

  /** The shape every loaded dataset has: each item's coders are well formed. */
  predicate WellFormed(items: Items)
  {
    forall item :: item in items ==> CodersWellFormed(items[item])
  }

  /** Writing at least one option leaves an item with well-formed coders. */
  lemma {:induction false} WriteOptionsWellFormed(coders: Coders, base: string, options: seq<string>, n: nat)
    requires 0 < n <= |options|
    requires forall coder :: coder in coders ==> |coders[coder]| > 0
    ensures CodersWellFormed(WriteOptions(coders, base, options, n))
  {
    var r := WriteOptions(coders, base, options, n);
    var key := CoderKey(base, n - 1);
    if n > 1 {
      WriteOptionsWellFormed(coders, base, options, n - 1);
    }
    assert key in r;
    assert r.Keys != {};
  }

  lemma CodersOfWellFormed(items: Items, item: string)
    requires WellFormed(items)
    ensures forall coder :: coder in CodersOf(items, item) ==> |CodersOf(items, item)[coder]| > 0
  {
    if item in items {
      assert CodersWellFormed(items[item]);
    }
  }

  lemma UpdateWellFormed(items: Items, item: string, coders: Coders)
    requires WellFormed(items) && CodersWellFormed(coders)
    ensures WellFormed(items[item := coders])
  {
  }

  /** A row keeps a dataset well formed. */
  lemma ApplyRowWellFormed(items: Items, base: string, row: seq<string>)
    requires WellFormed(items)
    ensures WellFormed(ApplyRow(items, base, row))
  {
    if |row| >= 2 {
      var item, options := row[0], Options(row[1]);
      var coders := CodersOf(items, item);
      CodersOfWellFormed(items, item);
      WriteOptionsWellFormed(coders, base, options, |options|);
      UpdateWellFormed(items, item, WriteOptions(coders, base, options, |options|));
    }
  }

  /** Every loaded dataset is well formed. */
  lemma {:induction false} LoadWellFormed(base: string, rows: seq<seq<string>>)
    ensures WellFormed(Load(base, rows))
  {
    if rows != [] {
      LoadWellFormed(base, rows[..|rows| - 1]);
      ApplyRowWellFormed(Load(base, rows[..|rows| - 1]), base, rows[|rows| - 1]);
    }
  }

  /** Every coder key in `coders` begins with the base coder name. */
  predicate CodersFromBase(coders: Coders, base: string)
  {
    forall coder :: coder in coders ==> |base| <= |coder| && coder[..|base|] == base
  }

  /** Every coder key recorded for every item begins with the base coder name. */
  predicate KeysFromBase(items: Items, base: string)
  {
    forall item :: item in items ==> CodersFromBase(items[item], base)
  }

  lemma {:induction false} WriteOptionsFromBase(coders: Coders, base: string, options: seq<string>, n: nat)
    requires n <= |options| && CodersFromBase(coders, base)
    ensures CodersFromBase(WriteOptions(coders, base, options, n), base)
  {
    if n > 0 {
      WriteOptionsFromBase(coders, base, options, n - 1);
      CoderKeyPrefix(base, n - 1);
    }
  }

  lemma UpdateFromBase(items: Items, base: string, item: string, coders: Coders)
    requires KeysFromBase(items, base) && CodersFromBase(coders, base)
    ensures KeysFromBase(items[item := coders], base)
  {
  }

  /**
   * Every coder key of a loaded dataset begins with the base coder name; in
   * reference mode, with `reference`.
   */
  lemma {:induction false} LoadKeysFromBase(base: string, rows: seq<seq<string>>)
    ensures KeysFromBase(Load(base, rows), base)
  {
    if rows != [] {
      var init, row := rows[..|rows| - 1], rows[|rows| - 1];
      LoadKeysFromBase(base, init);
      var before := Load(base, init);
      if |row| >= 2 {
        var options := Options(row[1]);
        var coders := CodersOf(before, row[0]);
        assert CodersFromBase(coders, base);
        WriteOptionsFromBase(coders, base, options, |options|);
        UpdateFromBase(before, base, row[0], WriteOptions(coders, base, options, |options|));
      }
    }
  }

  /** Each row cut down to its first two columns. */
  function FirstTwoColumns(rows: seq<seq<string>>): (cut: seq<seq<string>>)
    ensures |cut| == |rows|
    ensures forall k :: 0 <= k < |rows| ==>
      |cut[k]| == (if |rows[k]| < 2 then |rows[k]| else 2) && cut[k] <= rows[k]
  {
    seq(|rows|, k requires 0 <= k < |rows| => if |rows[k]| <= 2 then rows[k] else rows[k][..2])
  }

  /** Columns from index 2 on have no effect on the dataset. */
  lemma {:induction false} ExtraColumnsIgnored(items: Items, base: string, rows: seq<seq<string>>)
    ensures ApplyRows(items, base, rows) == ApplyRows(items, base, FirstTwoColumns(rows))
  {
    if rows != [] {
      var n := |rows|;
      assert FirstTwoColumns(rows)[..n - 1] == FirstTwoColumns(rows[..n - 1]);
      ExtraColumnsIgnored(items, base, rows[..n - 1]);
    }
  }

  /** The rows with at least two columns, in order. */
  function LongRows(rows: seq<seq<string>>): (kept: seq<seq<string>>)
    ensures |kept| <= |rows|
    ensures forall row :: row in kept ==> row in rows && |row| >= 2
    ensures forall row :: row in rows && |row| >= 2 ==> row in kept
  {
    if rows == [] then []
    else
      var n := |rows|;
      LongRows(rows[..n - 1]) + (if |rows[n - 1]| >= 2 then [rows[n - 1]] else [])
  }

  /** A further row is kept, after the rows kept so far, exactly when it has two or more columns. */
  lemma LongRowsAppend(rows: seq<seq<string>>, row: seq<string>)
    ensures LongRows(rows + [row]) == LongRows(rows) + (if |row| >= 2 then [row] else [])
  {
    assert (rows + [row])[..|rows|] == rows;
  }

  /** A row of fewer than two columns, wherever it comes in the file, changes nothing. */
  lemma ShortRowSkipped(items: Items, base: string, rows: seq<seq<string>>, row: seq<string>)
    requires |row| < 2
    ensures ApplyRows(items, base, rows + [row]) == ApplyRows(items, base, rows)
  {
    assert (rows + [row])[..|rows|] == rows;
  }

  /** Rows with fewer than two columns add no item and change nothing. */
  lemma {:induction false} ShortRowsIgnored(items: Items, base: string, rows: seq<seq<string>>)
    ensures ApplyRows(items, base, rows) == ApplyRows(items, base, LongRows(rows))
  {
    if rows != [] {
      var init, last := rows[..|rows| - 1], rows[|rows| - 1];
      ShortRowsIgnored(items, base, init);
      var prefix := LongRows(init);
      if |last| >= 2 {
        var kept := prefix + [last];
        assert LongRows(rows) == kept;
        assert kept[..|kept| - 1] == prefix;
        assert ApplyRows(items, base, kept) == ApplyRow(ApplyRows(items, base, prefix), base, last);
      } else {
        assert LongRows(rows) == prefix + [] == prefix;
      }
    }
  }

  /**
   * The coder a row's first option is stored under: exactly `reference` in
   * reference mode, whatever the file is called, and otherwise the name
   * taken from the file path.
   */
  lemma FirstOptionCoder(referenceCoder: bool, nameFromPath: string, items: Items, row: seq<string>)
    requires |row| >= 2
    ensures var coder := if referenceCoder then CODER_REFERENCE else nameFromPath;
      var r := ApplyRow(items, BaseCoder(referenceCoder, nameFromPath), row);
      && row[0] in r
      && coder in r[row[0]]
      && r[row[0]][coder] == Masses(Options(row[1])[0])
  {
    var base := BaseCoder(referenceCoder, nameFromPath);
    ApplyRowEffect(items, base, row);
    assert CoderKey(base, 0) == base;
  }

  /** In reference mode every coder key of a loaded dataset begins with `reference`. */
  lemma ReferenceKeys(nameFromPath: string, rows: seq<seq<string>>)
    ensures KeysFromBase(Load(BaseCoder(true, nameFromPath), rows), CODER_REFERENCE)
  {
    LoadKeysFromBase(BaseCoder(true, nameFromPath), rows);
  }

  // ------------------------------------------------------------ examples

  /**
   * Unfolds one row of two or more columns, given its options. A helper for
   * the worked examples below: it lets them name the options once, so the
   * verifier does not expand `ApplyRow` on a concrete row.
   */
  lemma ApplyRowWith(items: Items, base: string, row: seq<string>, options: seq<string>)
    requires |row| >= 2 && Options(row[1]) == options
    ensures ApplyRow(items, base, row) == items[row[0] := WriteOptions(CodersOf(items, row[0]), base, options, |options|)]
  {
  }

  lemma ExampleOptions()
    ensures Options("ab cd,e fgh,ij") == ["ab cd", "e fgh", "ij"]
  {
    var pieces := ["ab cd", "e fgh", "ij"];
    assert pieces[1..][1..] == ["ij"];
    assert Join(pieces, ',') == "ab cd,e fgh,ij";
    SplitJoin(pieces, ',');
    StripUnchanged("ab cd");
    StripUnchanged("e fgh");
    StripUnchanged("ij");
  }

  lemma ExampleMassesFirst()
    ensures Masses("ab cd") == [2, 2]
  {
    var p := ["ab", "cd"];
    assert p[1..] == ["cd"];
    SplitJoin(p, ' ');
    assert Lengths(p) == [2, 2];
  }

  lemma ExampleMassesSecond()
    ensures Masses("e fgh") == [1, 3]
  {
    var p := ["e", "fgh"];
    assert p[1..] == ["fgh"];
    SplitJoin(p, ' ');
    assert Lengths(p) == [1, 3];
  }

  lemma ExampleMassesThird()
    ensures Masses("ij") == [2]
  {
    SplitJoin(["ij"], ' ');
    assert Lengths(["ij"]) == [2];
  }

  lemma ExampleKeys()
    ensures CoderKey("X", 0) == "X" && CoderKey("X", 1) == "X2" && CoderKey("X", 2) == "X3"
  {
    assert DigitChar(2) == '2' && DigitChar(3) == '3';
  }

  lemma ExampleWrite()
    ensures WriteOptions(map[], "X", ["ab cd", "e fgh", "ij"], 3)
         == map["X" := [2, 2], "X2" := [1, 3], "X3" := [2]]
  {
    ExampleMassesFirst();
    ExampleMassesSecond();
    ExampleMassesThird();
    ExampleKeys();
    var options := ["ab cd", "e fgh", "ij"];
    var empty: Coders := map[];
    assert WriteOptions(empty, "X", options, 1) == map["X" := [2, 2]];
    assert WriteOptions(empty, "X", options, 2) == map["X" := [2, 2], "X2" := [1, 3]];
  }

  /** Three options for base coder X are stored under X, X2 and X3. */
  lemma ThreeOptionsExample()
    ensures ApplyRow(map[], "X", ["w", "ab cd,e fgh,ij"])
         == map["w" := map["X" := [2, 2], "X2" := [1, 3], "X3" := [2]]]
  {
    var row := ["w", "ab cd,e fgh,ij"];
    ExampleOptions();
    ExampleWrite();
    ApplyRowWith(map[], "X", row, ["ab cd", "e fgh", "ij"]);
  }

  /** An empty option, or a doubled space, gives a zero mass rather than no mass. */
  lemma EmptyMorphemeExample()
    ensures Masses("") == [0] && Masses("a  b") == [1, 0, 1]
  {
    var p := ["a", "", "b"];
    assert p[1..] == ["", "b"] && p[1..][1..] == ["b"];
    assert Join(p, ' ') == "a  b";
    SplitJoin(p, ' ');
  }

  // ------------------------------------------------------------ the dataset

  /** The dataset being built: its items and its has-reference-coder property. */
  class Dataset {
    var items: Items
    var hasReferenceCoder: bool

    constructor ()
      ensures items == map[] && !hasReferenceCoder
    {
      items := map[];
      hasReferenceCoder := false;
    }
  }

  /** Why a load fails. */
  datatype LoadError =
    | OpenFailed(cause: string)                   // raised by opening the file, not wrapped
    | DataIOError(message: string, cause: string) // a failure while reading, wrapped

  /** What reading the file gives: it cannot be opened, or rows up to an optional read failure. */
  datatype Source =
    | Unopenable(cause: string)
    | Readable(rows: seq<seq<string>>, readError: Option<string>)

  function ProcessingMessage(path: string): string
  {
    "Error occurred processing file: " + path
  }

  /** Processes one row of the file into the dataset, column by column. */
  method ReadRow(dataset: Dataset, coder: string, row: seq<string>)
    modifies dataset
    ensures dataset.items == ApplyRow(old(dataset.items), coder, row)
    ensures dataset.hasReferenceCoder == old(dataset.hasReferenceCoder)
  {
    var item: Option<string> := None;
    for j := 0 to |row|
      invariant j >= 1 ==> item == Some(row[0])
      invariant dataset.items == if j < 2 then old(dataset.items) else ApplyRow(old(dataset.items), coder, row)
      invariant dataset.hasReferenceCoder == old(dataset.hasReferenceCoder)
    {
      var col := row[j];
      if j == 0 {
        item := Some(col);
      } else if j == 1 {
        var options := Options(col);
        var before := CodersOf(dataset.items, item.value);
        for i := 0 to |options|
          invariant dataset.items == if i == 0 then old(dataset.items)
            else old(dataset.items)[item.value := WriteOptions(before, coder, options, i)]
          invariant dataset.hasReferenceCoder == old(dataset.hasReferenceCoder)
        {
          var currentCoder := CoderKey(coder, i);
          if item.value !in dataset.items {
            dataset.items := dataset.items[item.value := map[]];
          }
          dataset.items := dataset.items[item.value := dataset.items[item.value][currentCoder := Masses(options[i])]];
        }
      }
    }
  }

  /**
   * Loads a morphological segmentation file. `nameFromPath` is the coder
   * name derived from the file path; `source` is what opening and reading
   * the file gives.
   */
  method InputMorphemes(tsvFilename: string, nameFromPath: string, source: Source, referenceCoder: bool)
    returns (result: Result<Dataset, LoadError>)
    ensures source.Unopenable? ==> result == Failure(OpenFailed(source.cause))
    ensures source.Readable? && source.readError.Some? ==>
      result == Failure(DataIOError(ProcessingMessage(tsvFilename), source.readError.value))
    ensures source.Readable? && source.readError.None? ==>
      && result.Success?
      && fresh(result.value)
      && result.value.items == Load(BaseCoder(referenceCoder, nameFromPath), source.rows)
      && result.value.hasReferenceCoder == referenceCoder
      && WellFormed(result.value.items)
      && KeysFromBase(result.value.items, BaseCoder(referenceCoder, nameFromPath))
  {
    var dataset := new Dataset();
    var coder := BaseCoder(referenceCoder, nameFromPath);
    if referenceCoder {
      dataset.hasReferenceCoder := true;
    }
    if source.Unopenable? {
      return Failure(OpenFailed(source.cause));
    }
    var rows := source.rows;
    for r := 0 to |rows|
      invariant dataset.items == Load(coder, rows[..r])
      invariant dataset.hasReferenceCoder == referenceCoder
    {
      assert rows[..r + 1][..r] == rows[..r];
      ReadRow(dataset, coder, rows[r]);
    }
    if source.readError.Some? {
      return Failure(DataIOError(ProcessingMessage(tsvFilename), source.readError.value));
    }
    assert rows[..|rows|] == rows;
    LoadWellFormed(coder, rows);
    LoadKeysFromBase(coder, rows);
    result := Success(dataset);
  }
}
