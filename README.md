# primitive_db core, modelled in Dafny

This project models the core of `primitive_db`, a small command-line table
store, and proves what it promises. The core has three parts:

- **The schema registry** (`src/primitive_db/core.py`). The metadata map goes
  from table name to table structure. `create_table` validates a new table
  and then adds it in place. `drop_table` removes a table in place.
  `list_tables` reports the tables in insertion order.
  - The model is the class `Core.Metadata`. Its field `names` holds the keys
    in insertion order and its field `tables` holds the map.
  - The printed messages become outcome values.
  - The validation is the read-only method `Core.CheckNewTable`, which
    `CreateTable` calls.
- **The argument parsers** (`src/primitive_db/parser.py`):
  `parse_where_clause`, `parse_set_clause` and `parse_values`.
  - Values are the tagged variant `Parser.Value`: `IntVal`, `StrVal`,
    `BoolVal` and `FloatLit(text)`.
  - The literal-typing rule is one function, `Parser.Classify`.
  - The Python string methods the parsers use are modelled in the module
    `Text`, over ASCII: `strip`, `split(sep)`, `replace`, `lower`, `isdigit`
    and `int`.
  - `Text.Words`, a split at runs of white space, stands in for the
    tokenizer `shlex.split` (`src/primitive_db/parser.py:98`).
  - `Text.Join` is not used by the parsers. It states the round trips:
    splitting loses nothing, and a list of words tokenizes back to itself.
- **The memoising cache** (`create_cacher` in `src/primitive_db/decorators.py`).
  - The class `Decorators.Cacher` owns the dictionary that the
    `cache_result` and `clear` closures share.
  - The loader is a function argument. One call of it either returns a
    value or raises, as the datatype `Decorators.Load` records.
  - A ghost counter records how often a loader was called.

Files:

| file | contents |
|---|---|
| `wrappers.dfy` | `Option` |
| `text.dfy` | the string primitives |
| `parser.dfy` | the parsers |
| `core.dfy` | the registry |
| `decorators.dfy` | the cache |

Facts about the code that shape the model:

- **Token typing in `parse_values`.** `parse_values` types each token first
  and removes a pair of quotes only from a token that stays text
  (`src/primitive_db/parser.py:102-114`). The two clause parsers remove the
  quotes before typing (`:24-33`, `:64-73`).
  - The tokenizer `shlex.split` already removes the quotes it pairs up, so a
    token reaches this rule still quoted only when the quotes were nested,
    as in `'"28"'`, or escaped with a backslash, as in `\"28\"`. The
    model's tokenizer does not remove quotes (see "Left out").
  - Such a token stays text: `"28"` gives the text `28`.
  - In a clause, `age = '28'` gives the integer 28.
  - `Parser.TokenValue` and `Parser.ClauseValue` keep the two orders apart.
- **Table names.** A table name is checked only for being non-empty
  (`src/primitive_db/core.py:18`). It is not checked for being a valid
  identifier.
- **Creating a table changes only the map.** `create_table` adds the entry
  to the metadata it was given and returns it (`src/primitive_db/core.py:44-49`).
  It does no file I/O (`src/primitive_db/core.py:1-49`). `save_metadata`
  (`src/primitive_db/utils.py:23-38`) writes a map to a file; neither
  `core.py`, `parser.py`, `decorators.py` nor `engine.py` calls it.

## Model

| member | source | states |
|---|---|---|
| Core.CheckNewTable | src/primitive_db/core.py:14-34 | The checks run in the source's order. A taken name gives `AlreadyExists` before any other check; otherwise an empty name gives `InvalidName`. An invalid type is reported exactly when some column, `ID` included, has a type outside {int, str, bool}, and the one reported is the first such column. `DuplicateColumns` is reported exactly when all types are valid but two names among `ID` and the given columns coincide. `Created` is reported exactly when every check passes. |
| Core.HasDuplicateNames | src/primitive_db/core.py:31-32 | The duplicate test answers yes exactly when two of the names coincide. |
| Core.DistinctIffCardinality | src/primitive_db/core.py:31-32 | The `len(col_names) != len(set(col_names))` test finds duplicates: a name list is free of repeats exactly when its set is as large as the list, and the set is never larger. |
| Core.IdColumnReserved | src/primitive_db/core.py:22-34 | A user column named exactly `ID` collides with the implicit `ID` column, so the table is rejected whatever else holds. |
| Core.Metadata.CreateTable | src/primitive_db/core.py:14-44 | The outcome is decided as in `Core.CheckNewTable`, from the metadata before the call: a taken name, then an empty name, then the first column with an invalid type, then duplicate names. A rejected table leaves the metadata unchanged. An accepted one adds exactly one key. Its entry is `ID:int` followed by the given columns in their order, with no rows. Every earlier entry stays the same and the new name comes last in insertion order. The key order stays consistent with the map. |
| Core.Metadata.DropTable | src/primitive_db/core.py:63-67 | An absent name gives `NotFound` and changes nothing. A present name is removed from the map and from the key order, and nothing else changes. |
| Core.Metadata.ListTables | src/primitive_db/core.py:79-84 | Empty metadata gives the single "no tables" line. Otherwise there is one line per table name, in insertion order, and a name is listed exactly when it is a table. |
| Core.CreateKeepsConsistent | src/primitive_db/core.py:44 | Adding a fresh key at the end of the key order keeps the order and the map in step. |
| Core.DropKeepsConsistent | src/primitive_db/core.py:67 | Deleting a key from the map and from the order keeps them in step. |
| Core.Without | src/primitive_db/core.py:67 | Removing a key from the insertion order leaves no copy of it and never lengthens the order. `Core.WithoutAt` says the other keys keep their insertion order, and `Core.WithoutMembers`, `Core.WithoutDistinct` and `Core.WithoutLast` say which keys remain. |
| Core.WithoutAt | src/primitive_db/core.py:67 | Deleting the key at position `i` of a repeat-free insertion order gives the keys before it followed by the keys after it, each in its old order. |
| Core.WithoutAbsent | src/primitive_db/core.py:67 | Removing a key that is not in the order changes nothing. |
| Core.WithoutMembers | src/primitive_db/core.py:67 | After `del`, the remaining keys are exactly the others. |
| Core.WithoutDistinct | src/primitive_db/core.py:67 | After `del`, no key appears twice. |
| Core.CreateThenDropRestores | src/primitive_db/core.py:63-67 | Dropping a table that was just created restores both the map and the key order. |
| Core.CreateTwice | src/primitive_db/core.py:14-16 | A second `create_table` under a name that was accepted reports `AlreadyExists`, and the first table's entry stays as created. |
| Parser.StripQuotes | src/primitive_db/parser.py:24-26 | Text that starts and ends with the same quote character loses exactly that one outer pair. A lone quote character becomes empty. Other text is unchanged. |
| Parser.IsFloatText | src/primitive_db/parser.py:34 | A decimal fraction contains a `.` and so is never a digit string. `Parser.FloatTextOf` gives the test in the source's terms. |
| Parser.FloatTextOf | src/primitive_db/parser.py:34 | Text `a.b` passes the float test exactly when neither `a` nor `b` contains another `.` and `a` and `b` together form a non-empty digit string. This is `replace('.', '', 1).isdigit()` with exactly one `.`. |
| Parser.Classify | src/primitive_db/parser.py:28-35 | A text is a Boolean exactly when it reads `true` or `false` in some letter case. It is an integer exactly when it is a non-empty digit string, and then the integer is the digits' decimal value, as `int` gives it. A float literal or a text value keeps the text unchanged. `Parser.ClassifyRender` and `Parser.ClassifyBooleanCase` give the values back from their text, and `Parser.ClassifyLeadingZero` shows that leading zeros do not matter. |
| Parser.ClassifyLeadingZero | src/primitive_db/parser.py:32-33 | A digit string with a leading zero is typed as the same integer as without it, so `007` is 7. |
| Parser.ClauseValue | src/primitive_db/parser.py:24-33 | A clause value loses one outer pair of matching quotes and is then typed. Unquoted text is typed as it is, and a lone quote gives the empty text. |
| Parser.TokenValue | src/primitive_db/parser.py:102-114 | An unquoted token is typed as a clause value would be. A token that starts and ends with the same quote stays text, without that pair of quotes. |
| Parser.QuotedIsText | src/primitive_db/parser.py:102-113 | Text that starts with a quote is never a Boolean, an integer or a decimal fraction, so typing keeps it as text. |
| Parser.ClassifyRender | src/primitive_db/parser.py:28-35 | Typing reads a value's text back as the value. The digits of n give the integer n. `true` and `false` give the Booleans. Decimal text stays the opaque float literal. Text that looks like none of these stays text. |
| Parser.ClassifyBooleanCase | src/primitive_db/parser.py:28-31 | `true` and `false` in any letter case give the Booleans. |
| Parser.QuotedDigitsInClause | src/primitive_db/parser.py:24-33 | In a clause, a quoted number such as `"28"` becomes the integer 28, because the quotes come off first. |
| Parser.QuotedDigitsAsToken | src/primitive_db/parser.py:102-114 | In `parse_values`, a token that still carries quotes after tokenizing, such as the `"28"` left by nested quotes, stays text without its quotes, because the token is typed first. |
| Parser.LoneQuoteIsEmpty | src/primitive_db/parser.py:24-26 | A lone quote character as a clause value becomes the empty text. |
| Parser.SplitAssignment | src/primitive_db/parser.py:17-22 | An assignment exists exactly when the text contains `=`. Its column is stripped and contains no `=`. |
| Parser.AssignmentOf | src/primitive_db/parser.py:19-22 | `k = v` with an `=`-free `k` splits at the first `=`. The column is `k` stripped and the value is `v` stripped, with any later `=` kept in the value. |
| Parser.ParseWhereClause | src/primitive_db/parser.py:14-39 | The result is `None` exactly when the text has no `=`, which covers empty text. Otherwise it is a one-entry map. |
| Parser.WhereOf | src/primitive_db/parser.py:17-37 | The condition `k = v` maps `k` stripped to the clause value of `v` stripped. |
| Parser.ParseSetClause | src/primitive_db/parser.py:51-79 | The loop computes what the comma-separated fragments assign. Every comma splits, quoted or not. Fragments without `=` are skipped. Later fragments overwrite earlier ones. Empty input gives the empty map. |
| Parser.Assign | src/primitive_db/parser.py:58-77 | One fragment never removes a column that is already set. `Parser.AssignHere` and `Parser.AssignElsewhere` say what it sets and what it keeps. |
| Parser.AssignHere | src/primitive_db/parser.py:64-75 | A fragment that assigns a column sets it to the fragment's clause value, whatever it held before. |
| Parser.AssignElsewhere | src/primitive_db/parser.py:57-77 | A fragment that does not assign a column, including one without `=`, leaves that column as it was, set or not. |
| Parser.AssignmentsBound | src/primitive_db/parser.py:57-77 | The fold over the fragments sets no more columns than there are fragments. |
| Parser.StrippedFragment | src/primitive_db/parser.py:56-62 | The fragments stripped at line 56 split at `=` exactly as the unstripped text does, so the second strip inside the split changes nothing. |
| Parser.LastAssignmentWins | src/primitive_db/parser.py:57-77 | When a column is assigned more than once, the last fragment assigning it decides its value. |
| Parser.UnassignedColumnAbsent | src/primitive_db/parser.py:58-59 | A column that no fragment assigns does not appear in the result. |
| Parser.Unparenthesize | src/primitive_db/parser.py:95-96 | Text starting with `(` and ending with `)` loses exactly that one pair. Other text is unchanged. |
| Parser.ValueTokens | src/primitive_db/parser.py:91-98 | Every token is a non-empty, space-free word with no comma. Empty text has no tokens. |
| Parser.ValueTokensOfList | src/primitive_db/parser.py:94-98 | A parenthesised, comma-separated list of words reads back as exactly those words, in order. The empty list `()` has no tokens. |
| Parser.ValueTokensOfPaddedList | src/primitive_db/parser.py:85-98 | A parenthesised list whose items are words, each after its own white space, as in `(Sergei, 28, true)`, reads back as exactly those words, in order. |
| Parser.OuterParentheses | src/primitive_db/parser.py:93-96 | A parenthesised text is unchanged by stripping and loses just its outer parentheses. |
| Parser.ParseValues | src/primitive_db/parser.py:91-116 | The result has exactly one value per token of the text, in token order, each typed by the token rule. |
| Parser.TypeTokens | src/primitive_db/parser.py:100-114 | The loop appends one value per token, so after it the values and the tokens have the same length and each value is its own token typed by the rule given; `Parser.ParseValues` gives it the token rule. |
| Text.StripExact | src/primitive_db/parser.py:17-22 | `strip` removes exactly the surrounding white space: white space, then a trimmed middle, then white space, strips to the middle. |
| Text.StripBetween | src/primitive_db/parser.py:17-22 | The text is its leading white-space run, then its stripped form, then the trailing run. |
| Text.StripSplits | src/primitive_db/parser.py:17-22 | Every text is white space, then its stripped form, then white space. |
| Text.StripKeeps | src/primitive_db/parser.py:19-20 | Stripping keeps every non-space character, so `'=' in s` is unaffected by it. |
| Text.StripIdempotent | src/primitive_db/parser.py:56 | Stripping twice is stripping once. `Parser.StrippedFragment` uses it for the fragments stripped at this line. |
| Text.SplitOmits | src/primitive_db/parser.py:56 | No piece of `split(',')` contains a comma. |
| Text.JoinSplit | src/primitive_db/parser.py:56 | Joining the pieces of `split(sep)` with `sep` gives the text back, so splitting loses nothing. |
| Text.SplitJoin | src/primitive_db/parser.py:56 | Separator-free pieces joined by the separator split back into the same pieces. |
| Text.WordsJoin | src/primitive_db/parser.py:98 | Words joined by single spaces split back into the same words. |
| Text.WordsJoinPadded | src/primitive_db/parser.py:98 | Words each preceded by white space of its own and joined by single spaces split back into the same words. |
| Text.WordsAfterRun | src/primitive_db/parser.py:98 | White space in front of a text does not change its words. |
| Text.ReplaceJoin | src/primitive_db/parser.py:98 | Replacing the separator of a join by another character is joining with that character. |
| Text.DigitsValueShowNat | src/primitive_db/parser.py:32-33 | `int(str(n)) == n` for every natural number n. |
| Text.DigitsValueLeadingZero | src/primitive_db/parser.py:32-33 | A leading zero does not change the value of a digit string. |
| Decorators.Cacher.constructor | src/primitive_db/decorators.py:70 | A new cacher has an empty dictionary and has loaded nothing. |
| Decorators.Cacher.CacheResult | src/primitive_db/decorators.py:83-88 | A key in the dictionary is a hit, whatever value is stored under it. A hit returns the stored value, changes nothing and calls no loader. A miss calls the loader exactly once. If the loader returns, its value is stored under the key and returned. If it raises, the exception passes to the caller and the dictionary is unchanged. No other key's entry changes. |
| Decorators.Cacher.Clear | src/primitive_db/decorators.py:90-92 | The dictionary is empty afterwards. |
| Decorators.SecondLookup | src/primitive_db/decorators.py:83-88 | After a successful load, a second lookup of the key returns the first loader's value and only one load takes place. After a load that raised, the second lookup calls the second loader, a second load. |
| Decorators.ClearForcesReload | src/primitive_db/decorators.py:90-92 | After `clear`, the next lookup of a key misses and returns the new loader's value, a second load. |
| Decorators.OtherKeysKept | src/primitive_db/decorators.py:86-87 | A miss on another key, whether its loader returns or raises, does not disturb a stored entry. |
| Decorators.CachersAreIndependent | src/primitive_db/decorators.py:63-70 | Each `create_cacher` call starts with its own empty dictionary, so one cacher's entries are not another's hits. |

## Left out

- File I/O is not modelled: `src/primitive_db/utils.py` loads and saves the metadata and the table data as JSON. The registry starts empty instead of being loaded.
- The REPL in `src/primitive_db/engine.py` is not modelled. It is user interface only.
- `handle_db_errors`, `confirm_action` and `log_time` (`src/primitive_db/decorators.py:5-61`) are not modelled. They catch exceptions, read `input()` and read the clock, all around the core.
- Message text is not modelled. The printed messages of `create_table` and `drop_table` are outcome values, and `list_tables` returns its lines.
- Parser.ValueTokens: `shlex.split` (`src/primitive_db/parser.py:98`) is replaced by a split at white space, after commas have become spaces. So shlex's POSIX-mode quote handling is not modelled:
  - a quoted token containing spaces stays one token in the source but not in the model;
  - the tokenizer removes the quotes it pairs up, so `("28")` gives the integer 28 and `('true')` the Boolean true in the source, while the model keeps those quoted tokens as the text `28` and `true`;
  - an unmatched quote, as in `(O'Brien, 5)`, makes `shlex.split` raise `ValueError` in the source, while the model produces tokens;
  - backslash escapes are not modelled: `a\ b` is the one token `a b` in the source, a trailing `\` raises `ValueError`, and `(\"28\")` gives the text `28` in the source while the model keeps the token `\"28\"` with its backslashes;
  - the white space differs: `shlex.split` splits only at space, tab, carriage return and line feed, while the model also splits at vertical tab, form feed and the separators 0x1C to 0x1F.
- Parser.Classify: the float branch keeps the text as the opaque `FloatLit(text)` tag. Float values and their arithmetic are not modelled.
- Text.IsSpace, Text.Lower, Text.IsDigit: Python's `isspace`, `lower` and `isdigit` are restricted to ASCII. Unicode white space, Unicode digits and case mapping beyond A-Z are not modelled.
- Core.CheckNewTable: the `isinstance(table_name, str)` test (`src/primitive_db/core.py:18`) is always true, because names are strings by type.
- The rows of a table are kept only as the empty list a new table gets. Row operations do not appear in the modelled files.
