# twin.macro prechecks in Dafny

This project models the precheck stage of twin.macro (`src/prechecks.js`).
The stage runs before the macro rewrites a `tw` invocation into styling code.
It has two parts:

- `precheckGroup` is a rule. It throws when the invocation's raw class string
  is exactly `"group"`. The error message is a fixed line, then a bad/good
  block from `logBadGood('tw`group`', '<div className="group">')`, then a
  newline.
- `doPrechecks` is the runner. It calls each rule of a list, in order, with
  the same context. The first rule that throws ends the run, and its error
  reaches the caller unchanged.

How the model is built:

- A JavaScript throw is a value. `Option<string>` is `None` when the code
  returns normally and `Some(message)` when it throws `message`.
- A rule is a total function `Context -> Option<string>`.
- `Context` holds `classNameRaw` and an opaque `extra` map. The map stands for
  the other fields the host attaches, which no rule here reads.
- `logBadGood` lives in `./logging`, which is not part of this model. Every
  operation that uses it takes it as a parameter of type
  `(string, string) -> string`, so nothing is assumed about its layout.
- `throwIf` lives in `./utils`, which is not part of this model. The helper
  `ThrowIf` stands for it: it throws the thunk's message exactly when the
  condition holds.
- `DoPrechecks` is a method with the source's loop. Its ghost out-parameter
  `calls` logs each rule invocation as `Call(index, context)`. It is proved
  against the recursive specification function `Run`.

Files: `wrappers.dfy` (the `Option` type), `prechecks.dfy` (module `Prechecks`).

## Model

| member | source | states |
|---|---|---|
| Prechecks.PrecheckGroup | src/prechecks.js:4-12 | throws if and only if `classNameRaw` is exactly `"group"`; the thrown message is the group message |
| Prechecks.GroupMessage | src/prechecks.js:8-11 | the message is the prefix `"group" must be added as className:` plus a blank line, then `logBadGood(bad, good)` with the `tw`group`` snippet first and the `<div className="group">` snippet second, then one trailing newline |
| Prechecks.PrecheckGroupReadsOnlyClassName | src/prechecks.js:4-6 | two contexts with the same `classNameRaw` get the same outcome, whatever their other fields are |
| Prechecks.PrecheckGroupIsExactMatch | src/prechecks.js:6 | the test is strict equality: `"group"` throws, while `"group-hover"`, `"flex group"`, `"group "`, `""` and `"text-purple-500"` pass |
| Prechecks.GroupMessageShowsBothSnippets | src/prechecks.js:8-11 | if the formatter's block contains both snippets verbatim, the thrown message contains both of them |
| Prechecks.Run | src/prechecks.js:14-18 | the runner returns normally if and only if every rule passes, so an empty list always passes; when it throws, the error is exactly that of some rule that is the first to fail |
| Prechecks.RunReportsFirstFailure | src/prechecks.js:15-16 | whenever rule i is the first rule to fail, the runner throws exactly rule i's error, unwrapped |
| Prechecks.RunAppend | src/prechecks.js:15-17 | running a registry of `first` followed by `second` gives `first`'s error if `first` throws, and otherwise `second`'s outcome |
| Prechecks.DoPrechecks | src/prechecks.js:14-18 | the loop's outcome equals `Run`. The log shows rule k called k-th, each time with the identical context. On success every rule was called exactly once in list order. On failure, rules before the last call passed, the last call was the first failing rule, and no later rule was called |
| Prechecks.GroupRegistry | src/prechecks.js:4-18 | a registry holding only `precheckGroup` throws the group message exactly when `classNameRaw` is `"group"`, and returns normally otherwise |

## Left out

- `logBadGood` (`./logging`) is not part of this model. It is a parameter, and its output layout is not assumed. So the claim that the message shows both snippets is proved only for a formatter that embeds them (`GroupMessageShowsBothSnippets`).
- `throwIf` (`./utils`) is not part of this model. It is taken to throw the thunk's message exactly when its condition is true, and to return normally otherwise.
- JavaScript exceptions are modelled as `Option` values. A rule that throws something other than a message, or that is not a function, is not modelled.
- Rules are pure functions. Side effects a rule might have before throwing are not modelled; `precheckGroup` has none.
- How the host builds the context (parsing JSX props or tagged templates, source locations) and how it reports the error to the developer are host I/O outside this file.
- The module's `export` line only names the two functions and is not modelled.
