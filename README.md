# UNCreator username generator, modelled in Dafny

UNCreator reads first-name/second-name records, one per line, and writes every username that a common naming convention could build from each record. The core is the `UNC` class in `unc.py`:

- `__init__` loads the substitution table with `parseCommonSubsToDict`. The table is a Python dict read from `key=val` lines.
- `createOptions(user, casesense_run)` handles one line:
  - it splits the line into the two names;
  - it builds the nine base conventions (`applyOptionRules`);
  - it optionally adds numbered variants (`addNumbersToOptions` / `addNumbersToUsername`);
  - it optionally adds substituted variants (`specialCharsSubstitute`);
  - it appends everything to the output file under a lock.

  In case-sensitive mode it first does the same for the lower-cased line.
- `run` starts one `createOptions` thread for every input line that is not exactly `"\n"`.

The model has five modules.

- `Results` (`results.dfy`) holds the error values. A Python exception that ends a call becomes `Err`:
  - a record line that is not exactly two space-separated names gives `MalformedRecord`;
  - a substitution line that is not exactly `key=val` gives `MalformedRule`.
- `PyStr` (`pystr.dfy`) models the Python string builtins the core relies on:
  - `str.strip()`, using the exact `str.isspace` character set;
  - `str.split(sep)` with a one-character separator, and its inverse `Join`;
  - `str.lower()`;
  - `str.replace(old, new)`, including Python's behaviour for an empty `old`;
  - `str(i)` for a natural number.
- `Substitutions` (`subs.dfy`) models the dict:
  - it is an item list in insertion order (`Table`);
  - `d[k] = v` is `Put`, and `ToMap` gives the map view;
  - `parseCommonSubsToDict` is a loop over the lines of the substitution file.
- `Options` (`options.dfy`) holds the record parse and the three expansion steps:
  - the record parse is a function, `ParseRecord`;
  - the base conventions are the source's straight-line appends, proved equal to `BaseOptions`;
  - the numbered and substituted steps are methods with the source's loops, proved equal to `NumberedUsername`, `NumberedOptions` and `Substituted`;
  - lemmas about those functions state sizes, order and contents.
- `Unc` (`unc.dfy`) models the object's settings and `__init__`:
  - `createOptions` is modelled as the batches it writes. There is one batch per locked write, and case-sensitive mode writes the lower-cased batch first.
  - The record filter of `run` is modelled too.

The two guards on the numeric bound disagree:

- `createOptions` adds numbered variants when the bound is `>= 0` (`unc.py:33`).
- `addNumbersToUsername` adds nothing unless the bound is `> 0` (`unc.py:65`).

So `-n 0` passes the first guard and produces no numbered names. The model follows the code, and `Unc.ZeroBoundAddsNothing` states the consequence.

## Model

| member | source | states |
|---|---|---|
| PyStr.Strip | unc.py:28 | `strip()` result has no leading or trailing whitespace, and is `s` with only whitespace removed from each end |
| PyStr.StripLower | unc.py:28-31 | stripping commutes with lower-casing |
| PyStr.Split | unc.py:28 | `split(sep)` yields at least one piece, and no piece contains the separator |
| PyStr.JoinSplit | unc.py:28 | joining the pieces of `split(sep)` with `sep` gives back the string |
| PyStr.SplitCount | unc.py:28 | `split(sep)` yields one more piece than there are separators |
| PyStr.SplitTwo | unc.py:28 | two pieces means the string is piece, separator, piece |
| PyStr.SplitLower | unc.py:28-31 | splitting the lower-cased line on a non-letter gives the lower-cased pieces |
| PyStr.LowerSpec | unc.py:31 | `lower()` keeps the length, leaves no ASCII capital, turns each capital into its small letter and keeps every other character |
| PyStr.ReplaceAbsent | unc.py:83 | `replace` with a non-empty pattern that does not occur returns the string unchanged |
| PyStr.ReplaceSelf | unc.py:83 | replacing a non-empty pattern by itself returns the string unchanged |
| PyStr.ReplaceOneChar | unc.py:83 | for a one-character key, `replace` equals the per-character reference substitution |
| PyStr.ReplaceCharLength | unc.py:83 | the result length grows by `len(sub) - 1` for each occurrence of the key character |
| PyStr.ReplaceCharRemoves | unc.py:83 | no occurrence of the key character survives unless the substitute contains it |
| PyStr.NatToString | unc.py:67 | `str(i)` is a non-empty digit string with no leading zero |
| PyStr.NatToStringRoundTrip | unc.py:67 | reading the decimal digits of `str(i)` gives back `i` |
| PyStr.NatToStringInjective | unc.py:67 | different numbers give different suffixes |
| Substitutions.Find | unc.py:75 | the first position holding the key, and the length of the table exactly when the key is absent |
| Substitutions.PutSpec | unc.py:75 | `d[k] = v` keeps keys unique. An existing key keeps its position and gets the new value; a new key is appended; every other item is unchanged |
| Substitutions.PutToMap | unc.py:75 | on a dict, `d[k] = v` is map update of its contents |
| Substitutions.ParseRuleSpec | unc.py:74 | a line unpacks into `(key, val)` exactly when its stripped text has one `=`, and then it is `key=val` with no `=` in either part |
| Substitutions.ParseCommonSubsToDict | unc.py:70-76 | the loop returns the table `ParseSubs` defines, or the error of the first bad line |
| Substitutions.CollectAbort | unc.py:73-74 | once a line fails to unpack, parsing ends with `MalformedRule` whatever follows |
| Substitutions.ParseSubsError | unc.py:74 | the only parse error is `MalformedRule` |
| Substitutions.ParseSubsOk | unc.py:70-76 | the file parses if and only if every line does |
| Substitutions.ParseSubsKeys | unc.py:70-76 | a parsed table has unique keys, and they are exactly the keys of its lines |
| Substitutions.ParseSubsOrder | unc.py:73-75 | items follow the first appearance of their keys: before any line naming the key of item `b`, a line names the key of every earlier item `a` |
| Substitutions.ParseSubsLastWins | unc.py:73-75 | the value of a key is the one on the last line that names it |
| Options.ParseRecord | unc.py:28 | the line unpacks into two names exactly when its stripped text has one space. Then the names are non-empty, free of spaces, and joined by that space. Otherwise the error is `MalformedRecord` |
| Options.ParseRecordLower | unc.py:28-31 | the lower-cased line parses to the lower-cased names, so the case-sensitive pass cannot fail once the line parsed |
| Options.ApplyOptionRules | unc.py:43-55 | exactly the nine conventions, in append order |
| Options.AddNumbersToUsername | unc.py:63-68 | for a positive bound `m`, the `m + 1` strings `username + str(i)` for `i` in `0..m`; otherwise nothing |
| Options.NumberedUsernameDistinct | unc.py:63-68 | the numbered variants of a name are pairwise different and each starts with the name |
| Options.AddNumbersToOptions | unc.py:57-61 | the loop returns the concatenated numbered blocks of the options, in order |
| Options.NumberedOptionsLength | unc.py:57-68 | `len(options) * (m + 1)` names for a positive bound, none otherwise |
| Options.NumberedOptionsAt | unc.py:57-68 | entry `i * (m + 1) + j` is option `i` followed by `str(j)` |
| Options.SpecialCharsSubstitute | unc.py:78-86 | the two loops return, for each name in order, one `replace` result per table item in table order. Nothing is dropped |
| Options.SubstitutedLength | unc.py:78-86 | exactly `len(userlist) * len(table)` names |
| Options.SubstitutedAt | unc.py:78-86 | entry `i * len(table) + j` is name `i` with item `j` of the table replaced |
| Options.SubstitutedCopy | unc.py:78-86 | an item whose key does not occur in the name yields an unchanged copy of it |
| Unc.Init | unc.py:11-19 | construction succeeds if and only if every substitution line parses. It then stores the settings and the parsed table, whose keys are unique. Otherwise the error is `MalformedRule` |
| Unc.CreateOptions | unc.py:27-41 | one call returns the batches the job function defines: the lower-cased pass first in case-sensitive mode, then the line's own batch |
| Unc.JobFails | unc.py:27-31 | a call fails exactly when the line does not unpack into two names, and the error is `MalformedRecord` |
| Unc.JobSinglePass | unc.py:29-31 | with `casesense_run` set there is no recursion and one batch |
| Unc.JobBatches | unc.py:27-41 | the batches of a parsed line are the lower-cased record's batch (case-sensitive mode only) followed by the record's own |
| Unc.BatchLength | unc.py:32-36 | a batch holds `9 * (1 + k) * (1 + M)` names, where `k` counts the numeric suffixes and `M` the table items in use |
| Unc.BatchPrefixes | unc.py:32-36 | each stage only appends: base conventions first, then numbered, then substituted |
| Unc.ZeroBoundAddsNothing | unc.py:33-34 | a bound of 0 gives the same batch as numbering switched off |
| Unc.CaseSensitiveDoubles | unc.py:29-31 | case-sensitive mode writes two batches of equal size |
| Unc.LowerCaseLineWrittenTwice | unc.py:29-31 | an already lower-case line is written twice, with no deduplication |
| Unc.LaunchedLines | unc.py:93-99 | one thread for each occurrence of a line that is not exactly `"\n"` (counted with repetition, so repeated lines each get a thread) and none for `"\n"` |
| Unc.LaunchedMultiset | unc.py:93-99 | the launched lines, with repetition, are the input lines with every `"\n"` removed |
| Unc.LaunchedInOrder | unc.py:93-99 | threads start in input order: the launched lines sit at increasing input positions, and every position of a line other than `"\n"` is among them |
| Unc.Run | unc.py:90-102 | the result of every launched line's `createOptions(user)`, in launch order |
| Unc.BlankButNotEmptyLineFails | unc.py:94-97 | every line of only whitespace other than `"\n"` is launched, and its `createOptions` fails with `MalformedRecord` at unc.py:28 |
| Unc.JohnDoeDefault | unc.py:43-55 | `John Doe` with default settings gives `John, Doe, JohnDoe, John.Doe, JDoe, J.Doe, DoeJohn, DoeJ, DJohn` |
| Unc.JohnDoeNumbered | unc.py:57-68 | `John Doe` with `-n 1` gives 27 names, starting the numbered part with `John0, John1` and ending with `DJohn1` |
| Unc.JohnDoeParses | unc.py:28 | `"John Doe\n"` unpacks into `John` and `Doe` |

## Left out

- File I/O is not modelled. `run` and `parseCommonSubsToDict` read their input as a sequence of lines given as a parameter. `createOptions` returns the batches it would write instead of appending them to the output file, and `createEmptyFile` is not modelled.
- Python's line iteration keeps the `"\n"` of each line. The model's lines are given with it, so line splitting (including universal newlines) is not modelled.
- Threads, `threading.Lock` and `join` are not modelled. Each batch is one locked write. The model states each batch's contents and the per-line results in launch order, but not how batches from different threads interleave in the file.
- An exception in a thread ends that thread only. The model records it as that line's `Err` result. Python's printing of thread tracebacks is not modelled.
- The `print` messages of `run` and everything in `main` are not modelled: option parsing, default file names from the clock, and `int()` of the `-n` argument. The settings are constructor parameters.
- `defaultList` is assigned in `__init__` but never used, so it is not modelled.
- The model follows Python 3.7 or later. It relies on three things: dicts iterate in insertion order (this fixes the order `Options.SubstitutedAt` states), `str.isspace` has its Unicode set, and files are read in text mode. Under Python 2 the dict order and the `strip()` set differ.
- PyStr.Lower: only ASCII letters are lower-cased. Python's full Unicode case mapping is not modelled, and other characters are left unchanged.
- The `except e` branch of `specialCharsSubstitute` is not modelled: `str.replace` on strings never raises, so that branch is unreachable.
- Python's exact exception types (`ValueError` from unpacking, `IOError` from a missing file) are collapsed into `MalformedRecord`, `MalformedRule` and, for files, left out.
