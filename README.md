# Field validation interpreter (validate.js), modelled in Dafny

validate.js exports one function that checks a single field value against a
set of named validations. Each validation has a descriptor: a literal, an
array of arguments, a function, or a plain record `{arg, msg, kind}`.
`parseValidation` turns a descriptor into the function to call, the argument
list, a message and a kind. It picks either the library function of the same
name (library mode) or a custom function (custom mode). A leading `false`
argument negates the library function, and `$token` placeholders in the
message are interpolated. When there is no function at all, it throws. The
runner calls every resolved function in declaration order and reads its
return value: a string fails with that string as the message, `undefined`
passes, anything else passes when truthy. Each failure is recorded as
`{msg, kind}`, and the result is every `'error'` finding followed by every
other finding.

The model has three modules:

- `Js` (js.dfy): JavaScript values (`Val`), truthiness, string conversion,
  and the decimal strings that index an array.
- `Validate` (validate.dfy): descriptors and `Resolve` (parseValidation),
  `Invoke` (the call), `Verdict` (reading the return value, choosing the
  message and the kind), the specification functions `Check`, `Checks` and
  `Validation`, and the imperative runner. The runner is `Validate`, with its
  loop body as `RunEntry`; its two accumulators `errors` and `warnings` are
  tied to the specification by loop invariants.
- `ValidateProperties` (properties.dfy): the lemmas.

Everything outside validate.js is a parameter. A `Host` value carries:

- the JavaScript call of a function (`apply(f, thisArg, args)`);
- `lodash.get` (`pathGet`);
- the text of an object or a function (`display`);
- `Messages.get` (`messages`);
- the default `validator` library.

The `this` of the run is the explicit read-only parameter `ctx`. The
descriptors of a field are a sequence of (name, descriptor) pairs in
declaration order. A message template is a sequence of literal pieces and
placeholders, already cut up.

Four behaviours of validate.js that are easy to misread, and that the model
follows:

- A leading boolean stays in the argument list as a real argument; only
  `false` changes anything, by negating the function.
- A message starting with `#` is still interpolated when the descriptor is
  resolved. It is then passed to the message table whole, `#` included.
- A placeholder that resolves to nothing becomes the text `undefined`, not an
  empty string.
- With a `false` flag and no library function, resolution does not throw. The
  call of the negating wrapper throws a TypeError (`NotCallable`) instead.

## Model

| member | source | states |
|---|---|---|
| `Js.NatToDecimal` | validate.js:91 | the decimal text of a number is a canonical array-index string (digits, no leading zero) |
| `Js.DecimalRoundTrip` | validate.js:91 | reading the decimal text of `n` back as an index gives `n`, so `$n` names argument `n` |
| `Validate.FaultStops` | validate.js:119-120 | once a prefix of the entries has thrown, no later entry changes the outcome of the run |
| `Validate.ChecksStep` | validate.js:16-33 | running one more entry either throws its fault, adds nothing (pass), or appends its one finding |
| `Validate.GroupsSnoc` | validate.js:30-31 | a new finding goes to exactly one bucket: errors when its kind is exactly `'error'`, warnings otherwise |
| `Validate.RunEntry` | validate.js:17-32 | one loop pass (resolve, call with `ctx` as `this`, judge the return value, pick kind and message) equals the per-entry specification `Check` |
| `Validate.Validate` | validate.js:9-36 | an `undefined` value or descriptor map gives `[]`; otherwise the result is the errors then warnings of all entries, or the first fault with no partial result |
| `ValidateProperties.ResolveFailsIff` | validate.js:64-123 | resolution throws `UnknownValidation(name)` if and only if the descriptor is not custom, the library has no entry for the name, and the arguments do not start with `false` |
| `ValidateProperties.LibraryArguments` | validate.js:73-110 | library mode: the arguments are the value followed by the descriptor's argument (an array spread; a scalar, booleans included, as the single second argument); `fn` is the library function, negated exactly when the first extra argument is `false` |
| `ValidateProperties.NegatedCall` | validate.js:77-108 | a leading `false` never throws at resolution; the call runs the library function once with no receiver and returns the boolean negation of its truthiness, or throws when there is no function; a returned string message is lost |
| `ValidateProperties.CustomCall` | validate.js:67-117 | custom mode (a bare function or a record whose `arg` is one) calls that function with exactly `[value]` and with the run's context as `this` |
| `ValidateProperties.DescriptorMessageAndKind` | validate.js:89-92 | only a record carries a kind and a message; its message is interpolated against the final arguments, `#` messages included |
| `ValidateProperties.RenderAppend` | validate.js:91 | interpolating a concatenated template concatenates the interpolations of its parts |
| `ValidateProperties.PlaceholderIndex` | validate.js:91 | `$i` becomes argument `i` when it exists and is truthy, and the context path `i` otherwise, including an index past the last argument |
| `ValidateProperties.PlaceholderPath` | validate.js:91 | a token that is neither an index nor `length` is looked up as a path in the context |
| `ValidateProperties.PlaceholderUnresolved` | validate.js:91 | a placeholder that resolves to nothing becomes the text `undefined` |
| `ValidateProperties.ReturnValueJudged` | validate.js:19-27 | once resolved, an entry fails exactly when the function returns a string, or a falsy value other than `undefined`; a throwing call aborts with its fault |
| `ValidateProperties.MessagePrecedence` | validate.js:21-29 | message precedence: the non-empty returned string (looked up when it starts with `#`), then a `#` message looked up whole, then any other non-empty message, then the default message; an empty returned string discards the descriptor's message |
| `ValidateProperties.FindingKind` | validate.js:28 | a failure's kind is the descriptor's kind when truthy and `'error'` otherwise |
| `ValidateProperties.RunSucceedsIff` | validate.js:16-33 | a run returns findings exactly when no entry throws |
| `ValidateProperties.FirstFaultAborts` | validate.js:119-120 | the first entry that throws decides the run: the run throws its fault whatever entries follow |
| `ValidateProperties.FindingCount` | validate.js:27-32 | one finding per failed entry, none per passed one |
| `ValidateProperties.FindingOfEntry` | validate.js:16-32 | the finding of a failed entry sits after the findings of all failed entries declared before it |
| `ValidateProperties.GroupsRearrange` | validate.js:30-35 | errors followed by warnings is a permutation of the findings |
| `ValidateProperties.GroupsKinds` | validate.js:28-31 | the errors bucket holds only kind `'error'` findings, the warnings bucket only other kinds |
| `ValidateProperties.GroupsOrdered` | validate.js:34-35 | in the result no finding of another kind precedes an error-kind finding |
| `ValidateProperties.ValidationErrorsFirst` | validate.js:9-36 | the runner's result puts every error before every warning, is a permutation of the findings, and holds one finding per failed entry |
| `ValidateProperties.TwoFailures` | validate.js:16-33 | two failing entries give their two findings in declaration order |
| `ValidateProperties.TwoGroups` | validate.js:28-35 | a non-error finding followed by an error finding comes back error first |
| `ValidateProperties.ErrorBeforeEarlierWarning` | validate.spec.js:120-139 | a failing warning declared before a failing error is returned after it |

## Left out

- The `validator` package, `is-plain-object` and `lodash.get` are foreign code. The library is a map from names to values. The plain-object test is the shape tag of `Descriptor`. Path lookup is the host's `pathGet`.
- `./messages` is not part of this model. `Messages.get` is the host's `messages`, a total function to strings; an empty string stands for any falsy lookup result.
- The regular expression that finds `$token` placeholders and `String.prototype.replace`: templates arrive already cut into literal and placeholder pieces.
- Dynamic `this` binding becomes the explicit read-only `ctx`. The negating wrapper calls the library function without a receiver, modelled as `this = undefined`; in non-strict code that receiver is the global object.
- `for...in` order and inherited enumerable properties: the descriptors are a sequence in declaration order. Library names that exist only through inheritance (`toString`, `constructor`) are not modelled.
- Validation functions are pure functions of their receiver and arguments. Side effects, and exceptions thrown by a validation function itself, are not modelled.
- `validator || module.exports.validator`: only an absent library (`None`) selects the default; other falsy library arguments are not modelled.
- A descriptor map that is `null` or another non-object, and a record `msg` that is not a string (whose interpolation throws a TypeError), are not modelled.
- Numbers are integers; NaN, fractions and `-0` are not modelled, nor are numbers of magnitude 10^21 or more (which JavaScript prints in exponent form) and integers beyond 2^53 (which are not JavaScript numbers). Indexing the argument array handles element indices and `length`; other array properties (`map`, `concat`, …) used as tokens are not modelled.
- How objects and functions print is the host's `display`.
- The test at validate.spec.js:145-160 compares dates, and its expected message disagrees with the interpolation code. No property is drawn from it.
