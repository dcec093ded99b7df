# dispath, modelled in Dafny

`dispath` prints PATH-like environment variables one entry per line. It reads
the requested variables (PATH by default), or every set variable in
all-variables mode. It splits each value on a separator character (`:` by
default) and keeps the entries that match a pattern. It can also drop
repeated entries, keeping the first occurrence of each.

This project models that pipeline as pure functions over an explicit
environment table:

- `errors.dfy` (module `Errors`): `Option`, `Result` and the fatal `Error`
  variants. These are an invalid pattern, an unset variable, an undecodable
  value and an unreadable key.
- `environment.dfy` (module `Environment`): the environment is a sequence of
  `EnvVar(key, value)`. Keys and values are `OsString`s, which either decode
  to text or do not. `Var` looks a name up the way `std::env::var` does.
- `reader.dfy` (module `Reader`): named mode (`VariableValues`) and
  all-variables mode (`AllSetVariablesValues`). Each has its fail-fast error
  behaviour and a reference definition of what a successful read returns.
- `entries.dfy` (module `Entries`): `Split` follows the semantics of Rust's
  `str::split` with a `char` pattern. `Join` is its inverse. `FlatSplit`
  concatenates the entries of all values in order.
- `sequences.dfy` (module `Sequences`): an order-preserving `Filter`, plus
  the subsequence and duplicate-freedom notions used to state properties.
- `dedup.dfy` (module `Dedup`): `Unique` follows `Itertools::unique`. It is
  proved equal to the independent reference `FirstOccurrences`, which keeps
  a position exactly when its value does not occur earlier.
- `dispath.dfy` (module `Dispath`): the parsed arguments and `Run`, the whole
  run from arguments and environment to printed lines or an error.
- `examples_run.dfy` (module `ExampleRuns`): worked runs of the documented
  behaviour. These cover the default invocation, a separator override, a
  filter, and unset-variable handling.

The pattern engine is a parameter: a `Compiler` maps the pattern text to
`None` when it does not compile, or to a match predicate on entries.

## Model

| member | source | states |
|---|---|---|
| Environment.Var | src/main.rs:53-59 | A lookup reports not-present exactly when no entry has that key. A present or non-Unicode answer comes from the first entry with that key and carries that entry's value. |
| Reader.VariableValues | src/main.rs:50-64 | The named read succeeds iff no requested name is rejected. A name is rejected when its value is undecodable, or when it is absent and fail_unset is on. On success the result equals the reference: present names kept in request order, then mapped to their values. A failure is always UnsetVariable or UndecodableValue. |
| Reader.VariableValuesFailsFirst | src/main.rs:57-59 | A failed named read reports the first rejected name in request order. The error is UnsetVariable when that name is absent, and UndecodableValue otherwise. |
| Reader.VariableValuesAppend | src/main.rs:51-56 | Reading `a + b` is reading `a` and then `b`. The first failure wins, and two successes concatenate their values in request order. |
| Reader.AbsentNameContributesNothing | src/main.rs:58 | With fail_unset off, inserting an absent name anywhere in the request list does not change the result. It adds no value, not even an empty one. |
| Reader.StrictReadIsComplete | src/main.rs:52-58 | A successful read with fail_unset on returns exactly one value per requested name. Each value is that name's decoded value. |
| Reader.StrictAgreesWithLenient | src/main.rs:58 | When the read with fail_unset on succeeds, the read with it off returns the same values. |
| Reader.AllSetVariablesValues | src/main.rs:36-48 | The enumeration succeeds iff every value decodes. It then returns one value per variable, each equal to that variable's decoded value, in enumeration order. A failure is always UndecodableValue or UnreadableKey. |
| Reader.AllSetVariablesValuesFailsFirst | src/main.rs:38-45 | A failed enumeration reports the first variable in enumeration order whose value does not decode. It names that variable when its key decodes, and reports an unreadable key otherwise. |
| Entries.Split | src/main.rs:81 | Splitting yields at least one entry, and no entry contains the separator. |
| Entries.SplitCount | src/main.rs:81 | A value with n separator characters splits into n + 1 entries. Empty entries at the ends and between adjacent separators are kept. |
| Entries.JoinSplit | src/main.rs:81 | Joining a value's entries with the separator gives the value back. The empty value splits to a single empty entry. |
| Entries.SplitJoin | src/main.rs:81 | Splitting the join of a non-empty list of separator-free entries gives that list back. |
| Entries.FlatSplit | src/main.rs:80-81 | The entries of all values together number at least as many as the values, and no entry contains the separator. |
| Entries.FlatSplitAppend | src/main.rs:80-81 | The entries of concatenated value lists are the concatenation of their entries. Values are never interleaved. |
| Entries.FlatSplitAt | src/main.rs:80-81 | The entries of value k appear, in their own left-to-right order, between the entries of the earlier values and those of the later ones. |
| Sequences.Filter | src/main.rs:82 | Every kept entry satisfies the predicate and occurs in the input, and nothing is added. |
| Sequences.FilterCounts | src/main.rs:82 | Each matching string is kept exactly as many times as it occurs in the input. Each non-matching string is kept zero times. |
| Sequences.FilterIsSubsequence | src/main.rs:82 | The filtered entries are a subsequence of the input, in the input's order. |
| Sequences.FilterLength | src/main.rs:82-91 | The number of kept entries equals the number of input positions whose entry matches. |
| Sequences.FilterAppend | src/main.rs:80-82 | Filtering distributes over concatenation, so no entry is moved across another. |
| Dedup.UniqueFrom | src/main.rs:84-87 | Walking with a memory of seen values yields a duplicate-free subsequence. Its elements are exactly the input's values that are not already in the memory. |
| Dedup.Unique | src/main.rs:84-87 | Deduplication yields a duplicate-free subsequence of the input holding exactly the input's values. |
| Dedup.UniqueFromExtends | src/main.rs:84-87 | Walking after a prefix has been seen appends exactly the first occurrences that the rest adds to those of the prefix. |
| Dedup.UniqueIsFirstOccurrences | src/main.rs:84-87 | Deduplication keeps exactly the positions whose value does not occur earlier, in input order. |
| Dedup.UniqueFromOfDistinct | src/main.rs:84-87 | A duplicate-free input that shares no value with the memory passes through unchanged. |
| Dedup.UniqueIdempotent | src/main.rs:84-87 | Deduplicating twice gives the same result as deduplicating once. |
| Dispath.RequestedNames | src/main.rs:73-75 | No positional name means exactly ["PATH"]. Otherwise the names are used as given, in order. |
| Dispath.ReadValues | src/main.rs:71-77 | All-variables mode succeeds iff every value decodes and then yields one value per variable. Named mode succeeds iff no requested name is rejected and then yields the reference values. A read error is never InvalidPattern, and in all-variables mode it is UndecodableValue or UnreadableKey. |
| Dispath.Run | src/main.rs:66-95 | An uncompilable pattern gives InvalidPattern. The run succeeds iff the pattern compiles and the read succeeds. Every printed entry matches and is free of the separator. With unique on, no entry is printed twice. |
| Dispath.RunPropagatesReadError | src/main.rs:71-77 | A failed read aborts the run with that error, and no entries are produced. |
| Dispath.InvalidPatternIgnoresEnvironment | src/main.rs:68 | An invalid pattern gives the same outcome whatever the environment holds, because it is detected before any lookup. |
| Dispath.PlainOutput | src/main.rs:80-91 | Without unique, the output is exactly the filter of the concatenated entries. It is a subsequence of them, and its length is the number of matching entry positions. |
| Dispath.UniqueOutput | src/main.rs:84-87 | With unique, the output is the first-occurrence subsequence of the plain output. It has no duplicates and holds the same set of strings. |
| Dispath.NoNamesMeansPath | src/main.rs:73-75 | Running with no variable names gives the same result as running with ["PATH"]. |
| Dispath.AllVarsIgnoresNames | src/main.rs:71-72 | In all-variables mode, changing the requested names or fail_unset does not change the result. |
| Dispath.AllVarsOutput | src/main.rs:71-87 | In all-variables mode with a valid pattern, the run succeeds iff every value decodes, with or without unique. On success it prints the matching entries of every variable's value, in enumeration order, deduplicated when unique is on. |
| ExampleRuns.DefaultInvocation | src/main.rs:71-91 | With no arguments and PATH=/usr/bin:/bin, the output is /usr/bin then /bin. |
| ExampleRuns.SeparatorOverride | src/main.rs:81 | With separator ';' and PATH=/a;/b, the output is /a then /b. |
| ExampleRuns.FilterKeepsMatches | src/main.rs:82 | With PATH=/usr/bin:/opt/foo and a pattern matching only /opt/foo, the output is /opt/foo alone. |
| ExampleRuns.UnsetVariableHandling | src/main.rs:57-58 | Requesting an unset variable succeeds with no output, unless fail_unset is on. In that case the run fails with UnsetVariable naming it. |

## Left out

- Command-line parsing with `argh` (src/main.rs:8-34, 67) is not modelled. `Args` is the parsed record, and `DefaultArgs` holds its documented defaults. Malformed invocations are therefore not modelled either.
- Pattern compilation and matching (src/main.rs:68, 82) belong to a foreign regex engine. `Run` takes a `Compiler` parameter instead, and `None` stands for a failed `Regex::new`.
- ExampleRuns.DefaultInvocation: assumes only that the compiled `.*` matches the two entries involved, not every string, because the pattern engine is not modelled. The same holds for ExampleRuns.SeparatorOverride and ExampleRuns.FilterKeepsMatches.
- Process environment access is replaced by an explicit table. A name lookup returns the first entry whose key equals the name. Operating-system quirks are not modelled: keys that are empty or contain `=` or NUL, and the case-insensitive variable names of Windows. Keys are compared exactly.
- `OsString` decoding is abstracted to decodes or does not. The raw bytes of an undecodable string are not kept.
- Printing with `println!` is not modelled; the output is the returned sequence of lines. Partial output on a broken pipe is not modelled.
- Error message text and the `anyhow` plumbing are not modelled; an error is its variant plus the variable name. Exit codes follow from the result: `Err` means a non-zero exit.
- Running the tool twice with the same inputs gives the same output because `Run` is a function, so no separate statement is made.
- Enumeration order in all-variables mode is whatever order the table is given in; the operating system's order is not modelled.
