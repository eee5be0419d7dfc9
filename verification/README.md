# Morphological segmentation loader, modelled in Dafny

This project models segeval's loader for morphological segmentations,
`input_morphemes` in `src/python/main/segeval/data/converter/Morpheme.py`.
The loader reads rows of delimited text. Column 0 of each row is an item (a
word). Column 1 holds one or more segmentations of that word, separated by
commas. Each segmentation is a sequence of morphemes separated by single
spaces. The loader builds a dataset that maps item → coder name → masses, where
the masses are the character lengths of the morphemes.

Coder names are chosen as follows:
- The base coder name is `reference` in reference mode. Otherwise it is the
  name taken from the file path.
- Option 0 of a row is stored under the base name.
- Option i > 0 is stored under the base name followed by the decimal numeral of
  i + 1, so the suffixes run `2`, `3`, …

Files:
- `wrappers.dfy`: `Option` and `Result`.
- `text.dfy` (module `Text`): the parts of Python's string library the loader
  uses, over `seq<char>`. These are `str.split` with a one-character
  separator, its inverse `join`, `str.strip`, and `str(n)` with its inverse.
- `morpheme.dfy` (module `Morpheme`): three layers.
  - Specification functions: `Options`, `Masses`, `CoderKey`, `ApplyRow`,
    `ApplyRows` and `Load`.
  - Lemmas about them.
  - The `Dataset` class and two imperative methods. `ReadRow` is the column
    loop and option loop of one row. `InputMorphemes` is the whole loader.
    Both are proved to compute the specification functions.

Two consequences of the code that the model keeps:
- The file is opened at line 67, before the `try` block of lines 69-94. A
  file that cannot be opened therefore raises the open error itself, unwrapped.
  The model returns `OpenFailed` in that case. Only failures while reading
  become a `DataIOError`, which lines 90-92 raise.
- An empty morpheme gives mass 0, so masses are `nat`. Every option is
  stripped at line 80 before line 88 splits it, so a stored option never
  starts or ends with whitespace. A 0 comes only from an empty option or from
  two spaces in a row (`OptionZeroMass`), as `EmptyMorphemeExample` shows.

## Model

| member | source | states |
|---|---|---|
| `Text.Split` | src/python/main/segeval/data/converter/Morpheme.py:80 | `s.split(c)` gives one more piece than there are separators in `s` |
| `Text.SplitPiecesFree` | src/python/main/segeval/data/converter/Morpheme.py:80 | no piece of a split contains the separator |
| `Text.JoinSplit` | src/python/main/segeval/data/converter/Morpheme.py:80 | joining the pieces with the separator gives back the original string |
| `Text.SplitJoin` | src/python/main/segeval/data/converter/Morpheme.py:80 | splitting a join of separator-free pieces gives back those pieces, so `split` and `join` are mutual inverses |
| `Text.Lengths` | src/python/main/segeval/data/converter/Morpheme.py:88 | one length per piece |
| `Text.LengthsAt` | src/python/main/segeval/data/converter/Morpheme.py:88 | entry k of the lengths is the length of piece k |
| `Text.JoinLength` | src/python/main/segeval/data/converter/Morpheme.py:88 | a join is as long as its pieces plus one separator between each two |
| `Text.TrimLeft` | src/python/main/segeval/data/converter/Morpheme.py:80 | left-stripping never lengthens a string |
| `Text.TrimRight` | src/python/main/segeval/data/converter/Morpheme.py:80 | right-stripping never lengthens a string |
| `Text.Strip` | src/python/main/segeval/data/converter/Morpheme.py:80 | stripping never lengthens a string |
| `Text.TrimLeftSpec` | src/python/main/segeval/data/converter/Morpheme.py:80 | left-stripping removes exactly a whitespace prefix and leaves a string that is empty or starts with a non-space |
| `Text.TrimRightSpec` | src/python/main/segeval/data/converter/Morpheme.py:80 | right-stripping removes exactly a whitespace suffix and leaves a string that is empty or ends with a non-space |
| `Text.StripIsInfix` | src/python/main/segeval/data/converter/Morpheme.py:80 | `strip` keeps the infix between a whitespace prefix and a whitespace suffix; the result is empty or starts and ends with a non-space |
| `Text.StripUnchanged` | src/python/main/segeval/data/converter/Morpheme.py:80 | a string without outer whitespace is left as it is |
| `Text.StripIdempotent` | src/python/main/segeval/data/converter/Morpheme.py:80 | stripping twice is stripping once |
| `Text.DigitChar` | src/python/main/segeval/data/converter/Morpheme.py:82 | a digit below ten becomes the character that denotes it |
| `Text.Decimal` | src/python/main/segeval/data/converter/Morpheme.py:82 | `str(n)` is a non-empty string of digits without a leading zero |
| `Text.DecimalRoundTrip` | src/python/main/segeval/data/converter/Morpheme.py:82 | reading back `str(n)` gives `n` |
| `Text.DecimalInjective` | src/python/main/segeval/data/converter/Morpheme.py:82 | distinct numbers have distinct numerals |
| `Morpheme.Options` | src/python/main/segeval/data/converter/Morpheme.py:80 | column 1 gives as many options as it has commas, plus one |
| `Morpheme.StripAll` | src/python/main/segeval/data/converter/Morpheme.py:80 | stripping each piece keeps the number of pieces |
| `Morpheme.StripAllAt` | src/python/main/segeval/data/converter/Morpheme.py:80 | entry i of the stripped pieces is piece i stripped |
| `Morpheme.OptionAt` | src/python/main/segeval/data/converter/Morpheme.py:80 | option i is comma-piece i of column 1 with its whitespace stripped, and contains no comma |
| `Morpheme.Masses` | src/python/main/segeval/data/converter/Morpheme.py:88 | an option gives as many masses as it has spaces, plus one, so never an empty list |
| `Morpheme.MassesArePieceLengths` | src/python/main/segeval/data/converter/Morpheme.py:87-88 | one mass per piece of `option.split(' ')`, and mass k is the character length of piece k |
| `Morpheme.MassesCoverOption` | src/python/main/segeval/data/converter/Morpheme.py:88 | the sum of the masses plus (count − 1) is the length of the option |
| `Morpheme.MorphemesRejoin` | src/python/main/segeval/data/converter/Morpheme.py:80-88 | option i's morphemes joined with single spaces give comma-piece i of column 1, stripped |
| `Morpheme.ZeroMassIffEmptyMorpheme` | src/python/main/segeval/data/converter/Morpheme.py:88 | a mass is 0 exactly when a morpheme is empty: an empty morpheme gives 0 and is never omitted |
| `Text.FirstPieceEmpty` | src/python/main/segeval/data/converter/Morpheme.py:80 | the first piece of a split is empty exactly when the string is empty or starts with the separator |
| `Text.LaterPieceEmpty` | src/python/main/segeval/data/converter/Morpheme.py:88 | a later piece of a split is empty exactly when a separator is followed by another separator or ends the string |
| `Morpheme.OptionTrimmed` | src/python/main/segeval/data/converter/Morpheme.py:80-88 | an option is stripped before it is split, so it is empty or neither starts nor ends with whitespace |
| `Morpheme.OptionZeroMass` | src/python/main/segeval/data/converter/Morpheme.py:80-88 | a loaded option has a zero mass exactly when it is empty or holds two spaces in a row |
| `Morpheme.EmptyMorphemeExample` | src/python/main/segeval/data/converter/Morpheme.py:80-88 | an empty option gives `[0]`, and `a  b` gives `[1, 0, 1]` |
| `Morpheme.CoderKey` | src/python/main/segeval/data/converter/Morpheme.py:82 | the key is the bare base name exactly for option 0 |
| `Morpheme.CoderKeyPrefix` | src/python/main/segeval/data/converter/Morpheme.py:82 | every key begins with the base name |
| `Morpheme.CoderKeySuffix` | src/python/main/segeval/data/converter/Morpheme.py:82 | for option i > 0 the part after the base name is a numeral whose value is i + 1 |
| `Morpheme.NoSuffixOne` | src/python/main/segeval/data/converter/Morpheme.py:82 | no option is stored under base name + `1` |
| `Morpheme.CoderKeysDistinct` | src/python/main/segeval/data/converter/Morpheme.py:81-82 | different options of a row get different keys |
| `Morpheme.RowKeysGrow` | src/python/main/segeval/data/converter/Morpheme.py:81-82 | each further option adds one key that is new |
| `Morpheme.RowKeysCount` | src/python/main/segeval/data/converter/Morpheme.py:81-82 | n options write exactly n distinct keys |
| `Morpheme.KeysPerRow` | src/python/main/segeval/data/converter/Morpheme.py:80-82 | a row writes as many keys as column 1 has commas, plus one |
| `Morpheme.CodersOf` | src/python/main/segeval/data/converter/Morpheme.py:84-85 | the coders already recorded for the item, or a new empty map. Its meaning for a row is stated by `WriteRowEffect`. |
| `Morpheme.WriteOptions` | src/python/main/segeval/data/converter/Morpheme.py:81-88 | the option loop: option i's masses written under key i, in order. `WriteOptionsKeys`, `WriteOptionsValues` and `WriteOptionsFrame` state its effect. |
| `Morpheme.WriteRow` | src/python/main/segeval/data/converter/Morpheme.py:84-88 | the options of one row written for one item. `WriteRowEffect` states the whole new state. |
| `Morpheme.WriteOptionsKeys` | src/python/main/segeval/data/converter/Morpheme.py:81-87 | writing the options adds exactly the row's keys to the item's coders |
| `Morpheme.WriteOptionsValues` | src/python/main/segeval/data/converter/Morpheme.py:81-88 | after the option loop, key i holds the masses of option i; no later option overwrites it |
| `Morpheme.WriteOptionsFrame` | src/python/main/segeval/data/converter/Morpheme.py:81-87 | coders the row does not write keep their masses |
| `Morpheme.WriteRowEffect` | src/python/main/segeval/data/converter/Morpheme.py:84-88 | the item is present afterwards. Its coders are the old ones plus the row's keys. Key i holds option i's masses. Other coders and other items are unchanged. |
| `Morpheme.WriteTwice` | src/python/main/segeval/data/converter/Morpheme.py:84-88 | for two writes to one item, keys of the second write hold its masses. Keys only the first wrote keep the first's masses. Older coders survive. |
| `Morpheme.ApplyRow` | src/python/main/segeval/data/converter/Morpheme.py:73-88 | one row: fewer than two columns change nothing, otherwise column 1's options are written for the item in column 0. `ApplyRowEffect`, `ExtraColumnsIgnored` and `ShortRowsIgnored` state its effect. |
| `Morpheme.ApplyRowEffect` | src/python/main/segeval/data/converter/Morpheme.py:73-88 | a row of two or more columns stores under column 0, verbatim. It stores option i of column 1 under key i and changes nothing else. |
| `Morpheme.LastWriteWins` | src/python/main/segeval/data/converter/Morpheme.py:84-88 | for a later row with the same item, its keys overwrite the earlier masses (last write wins). The item's other coder keys survive. |
| `Morpheme.ApplyRows` | src/python/main/segeval/data/converter/Morpheme.py:71 | the row loop, applying the rows in file order. `LastWriteWins` and `ShortRowsIgnored` say what the order decides. |
| `Morpheme.Load` | src/python/main/segeval/data/converter/Morpheme.py:60-88 | the items a whole file yields, starting from an empty dataset. `LoadWellFormed` and `LoadKeysFromBase` state their shape, and `InputMorphemes` is proved to build exactly this. |
| `Morpheme.FirstOptionCoder` | src/python/main/segeval/data/converter/Morpheme.py:39-62 | the coder that a row's option 0 is stored under is exactly `reference` in reference mode, whatever the file is called, and otherwise the name taken from the path |
| `Morpheme.ReferenceKeys` | src/python/main/segeval/data/converter/Morpheme.py:39-64 | in reference mode every coder key of a loaded dataset begins with `reference` |
| `Morpheme.WriteOptionsWellFormed` | src/python/main/segeval/data/converter/Morpheme.py:81-88 | after at least one option the item has a coder, and every coder has a mass |
| `Morpheme.CodersOfWellFormed` | src/python/main/segeval/data/converter/Morpheme.py:84-85 | the coders found for an item, or the empty map created for it, have non-empty masses |
| `Morpheme.UpdateWellFormed` | src/python/main/segeval/data/converter/Morpheme.py:87 | replacing an item's coders by well-formed ones keeps the dataset well formed |
| `Morpheme.ApplyRowWellFormed` | src/python/main/segeval/data/converter/Morpheme.py:84-88 | a row never leaves an item with an empty coder map or an empty mass list |
| `Morpheme.LoadWellFormed` | src/python/main/segeval/data/converter/Morpheme.py:71-88 | in every loaded dataset each item has at least one coder, and each coder at least one mass |
| `Morpheme.WriteOptionsFromBase` | src/python/main/segeval/data/converter/Morpheme.py:82-87 | the option loop only adds keys that begin with the base name |
| `Morpheme.UpdateFromBase` | src/python/main/segeval/data/converter/Morpheme.py:87 | replacing an item's coders keeps every key beginning with the base name |
| `Morpheme.LoadKeysFromBase` | src/python/main/segeval/data/converter/Morpheme.py:61-88 | every coder key of a loaded dataset begins with the base name, so with `reference` in reference mode |
| `Morpheme.FirstTwoColumns` | src/python/main/segeval/data/converter/Morpheme.py:74-78 | each row is cut to its first two columns, or kept whole when it has fewer |
| `Morpheme.ExtraColumnsIgnored` | src/python/main/segeval/data/converter/Morpheme.py:74-79 | columns at index 2 and beyond have no effect on the dataset |
| `Morpheme.LongRows` | src/python/main/segeval/data/converter/Morpheme.py:73-78 | the kept rows are exactly the rows with at least two columns, and there are no more of them than rows; `LongRowsAppend` fixes their order |
| `Morpheme.LongRowsAppend` | src/python/main/segeval/data/converter/Morpheme.py:71-78 | a further row is kept, after the rows kept so far and in file order, exactly when it has two or more columns |
| `Morpheme.ShortRowSkipped` | src/python/main/segeval/data/converter/Morpheme.py:71-78 | a row of fewer than two columns, appended after any rows, leaves the dataset unchanged |
| `Morpheme.ShortRowsIgnored` | src/python/main/segeval/data/converter/Morpheme.py:73-78 | rows with fewer than two columns add no item and change nothing |
| `Morpheme.ExampleOptions` | src/python/main/segeval/data/converter/Morpheme.py:80 | `ab cd,e fgh,ij` gives the options `ab cd`, `e fgh`, `ij` |
| `Morpheme.ExampleMassesFirst` | src/python/main/segeval/data/converter/Morpheme.py:88 | `ab cd` gives masses `[2, 2]` |
| `Morpheme.ExampleMassesSecond` | src/python/main/segeval/data/converter/Morpheme.py:88 | `e fgh` gives masses `[1, 3]` |
| `Morpheme.ExampleMassesThird` | src/python/main/segeval/data/converter/Morpheme.py:88 | `ij` gives masses `[2]` |
| `Morpheme.ExampleKeys` | src/python/main/segeval/data/converter/Morpheme.py:82 | base `X` gives the keys `X`, `X2`, `X3` for options 0, 1, 2 |
| `Morpheme.ExampleWrite` | src/python/main/segeval/data/converter/Morpheme.py:81-88 | the three options give `X → [2,2]`, `X2 → [1,3]`, `X3 → [2]` |
| `Morpheme.ThreeOptionsExample` | src/python/main/segeval/data/converter/Morpheme.py:73-88 | the row `w`, `ab cd,e fgh,ij` with base `X` gives `w → {X → [2,2], X2 → [1,3], X3 → [2]}` |
| `Morpheme.Dataset.constructor` | src/python/main/segeval/data/converter/Morpheme.py:60 | a new dataset has no items and no has-reference-coder property |
| `Morpheme.ProcessingMessage` | src/python/main/segeval/data/converter/Morpheme.py:91-92 | the message of the wrapping `DataIOError` names the file path. `InputMorphemes` states when it is raised. |
| `Morpheme.ReadRow` | src/python/main/segeval/data/converter/Morpheme.py:72-88 | the column loop and option loop leave the items equal to `ApplyRow` of the old items, and leave the property flag alone |
| `Morpheme.InputMorphemes` | src/python/main/segeval/data/converter/Morpheme.py:42-95 | an unopenable file raises its open error unwrapped. A read failure gives a `DataIOError` naming the path, with no dataset. Otherwise a fresh dataset holds `Load` of the rows under the chosen base name. It is well formed, and its has-reference flag is set exactly in reference mode. |

## Left out

- File handling is not modelled. That covers opening the file, the `'rU'` newline mode, and closing it in `finally` (lines 67, 93-94). What opening and reading give is the input `Source`: the file cannot be opened, or the rows read so far come with or without a read failure.
- `csv.reader` is a library function (line 70), and its tokenising, quoting and escaping are not modelled. The same goes for the `delimiter` parameter, which only reaches the reader. Rows are given already split into fields.
- `name_from_filepath` (line 62) is not part of this model. The coder name it would derive is the parameter `nameFromPath`.
- The internals of `Dataset` are not modelled. It is a class with an item map and one flag, `hasReferenceCoder`, which stands for the `FIELD_HAS_REFERENCE_CODER` entry of its property table. The flag is false when that entry is absent.
- Exceptions are modelled as `LoadError` values. `OpenFailed` carries only the cause of the open error at line 67; the message Python gives that error is not modelled. `DataIOError` carries the message of line 91 and the cause. Python's exception objects and their chaining are not modelled.
- Text encoding is not modelled. `len` counts the elements of a `seq<char>`. `strip` removes the six ASCII whitespace characters (space, tab, line feed, vertical tab, form feed, carriage return), as it does on Python 2 byte strings. On Python 3 strings, `strip` also removes the other Unicode whitespace characters, and that is not modelled.
- The order of items and coders is not modelled. Python dicts keep insertion order, and code that iterates over the returned dataset can see it. Dafny maps have no order. The loader itself never depends on that order.
