/**
 The field-validation interpreter of validate.js: `Resolve` is
 `parseValidation`, which turns one named descriptor into the function to
 call, its arguments, a message and a kind; `Validate` is the exported runner,
 which calls every resolved function against the field value and sorts the
 failures into errors followed by warnings.

 Everything foreign (calling a JavaScript function, `lodash.get`, the message
 table, the default `validator` library) arrives through a `Host` value; the
 context object `this` is the explicit read-only parameter `ctx`.
 */
module Validate {
  import opened Js

  const DEFAULT_ERROR_MSG_KEY: string := "errors.validation.default"
  const ERROR: string := "error"
  const WARNING: string := "warning"

  datatype Option<T> = None | Some(value: T)

  /** The two ways a run can throw instead of returning findings. */
  datatype Fault =
    | UnknownValidation(name: string)  // the `does not exists` error thrown by parseValidation
    | NotCallable(name: string)        // the TypeError of calling something that is not a function

  datatype Result<T> = Success(value: T) | Failure(fault: Fault)

  /**
   The collaborators validate.js reaches through `require` and `this`:
   `apply(f, thisArg, args)` is the return value of calling function `f`;
   `pathGet(obj, path)` is `lodash.get`; `display` is `String(x)` of an
   object or a function; `messages(key)` is `Messages.get(key)`, the empty
   string standing for a missing translation; `defaultLibrary` is the
   `validator` package.
   */
  datatype Host = Host(
    apply: (FnId, Val, seq<Val>) -> Val,
    pathGet: (Val, string) -> Val,
    display: Val -> string,
    messages: string -> string,
    defaultLibrary: Library)

  /** A library of validation functions by name (`validator[name]`). */
  type Library = map<string, Val>

  /** A message template, already cut into literal text and `$token` placeholders. */
  datatype Piece = Literal(text: string) | Placeholder(token: string)
  type Template = seq<Piece>

  /**
   A validation descriptor. `Record` is a plain object `{arg, msg, kind}`
   (`msg` absent is `None`, `kind` absent is `Undef`); `Bare` is any other
   value: a literal, an array, a non-plain object or a function. A plain-object
   descriptor is always written `Record`; `Bare(Obj(_))` is a non-plain object.
   */
  datatype Descriptor =
    | Record(arg: Val, msg: Option<Template>, kind: Val)
    | Bare(v: Val)

  /** The validations of one field, in declaration order. */
  type Spec = seq<(string, Descriptor)>

  /** The `fn` of a resolved validation: a value called as is, or the negating wrapper around one. */
  datatype Callee = Direct(f: Val) | Negated(f: Val)

  /** What `parseValidation` returns: `{fn, args, msg, kind}`. */
  datatype Resolved = Resolved(fn: Callee, args: seq<Val>, msg: Option<string>, kind: Val)

  /** One recorded failure. */
  datatype Finding = Finding(msg: string, kind: Val)

  /** The library entry for a name; `undefined` when the library has no such entry. */
  function Lookup(validator: Library, name: string): Val {
    if name in validator then validator[name] else Undef
  }

  /** Concatenating a value onto an empty array: an array is spread one level, any other value is a single element. */
  function Concat(x: Val): seq<Val> {
    if x.Arr? then x.items else [x]
  }

  /** The leading extra argument is the boolean `false`. */
  predicate LeadingFalse(extra: seq<Val>) {
    |extra| > 0 && extra[0].Bool? && !extra[0].b
  }

  /**
   Library mode: `fn` is `validator[name]`, wrapped in a negation when the
   first extra argument is `false`; the extra arguments, flag included,
   follow the field value.
   */
  function LibraryCall(value: Val, name: string, arg: Val, validator: Library): (Callee, seq<Val>) {
    var extra := Concat(arg);
    var fn := Lookup(validator, name);
    (if LeadingFalse(extra) then Negated(fn) else Direct(fn), [value] + extra)
  }

  /** Indexing a JavaScript array by a property name: an element, the `length`, or `undefined`. */
  function ArgAt(args: seq<Val>, token: string): Val {
    if IsArrayIndex(token) then
      var i := DecimalValue(token);
      if i < |args| then args[i] else Undef
    else if token == "length" then Num(|args|)
    else Undef
  }

  /**
   The replacement for one placeholder: the argument the token names when
   that is truthy, otherwise the token looked up as a path in the context.
   */
  function Substitute(host: Host, ctx: Val, args: seq<Val>, token: string): Val {
    var a := ArgAt(args, token);
    if Truthy(a) then a else host.pathGet(ctx, token)
  }

  /** The message with every placeholder replaced by the text of its substitute. */
  function Render(host: Host, ctx: Val, args: seq<Val>, t: Template): string {
    if t == [] then ""
    else
      var head := match t[0]
        case Literal(text) => text
        case Placeholder(token) => ToStr(Substitute(host, ctx, args, token), host.display);
      head + Render(host, ctx, args, t[1..])
  }

  /**
   `parseValidation(value, name, desc, validator)` with `this` bound to `ctx`.
   Fails with `UnknownValidation(name)` exactly when the chosen `fn` is
   `undefined` itself, not when it is a negating wrapper around `undefined`.
   */
  function Resolve(host: Host, ctx: Val, value: Val, name: string, desc: Descriptor, validator: Library): Result<Resolved> {
    var resolved :=
      match desc
      case Record(arg, msg, kind) =>
        var (fn, args) := if arg.Func? then (Direct(arg), [value]) else LibraryCall(value, name, arg, validator);
        var text := if msg.Some? then Some(Render(host, ctx, args, msg.value)) else None;
        Resolved(fn, args, text, kind)
      case Bare(v) =>
        if v.Func? then Resolved(Direct(v), [value], None, Undef)
        else
          var (fn, args) := LibraryCall(value, name, v, validator);
          Resolved(fn, args, None, Undef);
    if resolved.fn == Direct(Undef) then Failure(UnknownValidation(name)) else Success(resolved)
  }

  /**
   Calling the resolved `fn` with `args`. A function called directly receives `ctx` as
   `this`; the negating wrapper calls the library function without a
   receiver, once, and returns the boolean opposite of its truthiness.
   Calling anything that is not a function throws a TypeError.
   */
  function Invoke(host: Host, ctx: Val, name: string, fn: Callee, args: seq<Val>): Result<Val> {
    match fn
    case Direct(f) =>
      if f.Func? then Success(host.apply(f.id, ctx, args)) else Failure(NotCallable(name))
    case Negated(f) =>
      if f.Func? then Success(Bool(!Truthy(host.apply(f.id, Undef, args)))) else Failure(NotCallable(name))
  }

  /** The kind of a failure: the descriptor's kind when truthy, `'error'` otherwise. */
  function FinalKind(kind: Val): Val {
    if Truthy(kind) then kind else Str(ERROR)
  }

  /**
   The text of a failure: a message starting with `#` is looked up in the
   message table whole, `#` included; any other non-empty message is used as
   it is; an empty or missing message, or an empty lookup, falls back to the
   table's default validation message.
   */
  function FinalMessage(messages: string -> string, msg: Option<string>): string {
    var chosen :=
      if msg.None? || msg.value == "" then ""
      else if msg.value[0] == '#' then messages(msg.value)
      else msg.value;
    if chosen != "" then chosen else messages(DEFAULT_ERROR_MSG_KEY)
  }

  /**
   The verdict on one return value: a string fails and becomes the message,
   `undefined` passes, anything else passes when truthy. A failure yields
   its finding.
   */
  function Verdict(messages: string -> string, ret: Val, msg: Option<string>, kind: Val): Option<Finding> {
    var msg' := if ret.Str? then Some(ret.s) else msg;
    var valid := !ret.Str? && (ret == Undef || Truthy(ret));
    if valid then None else Some(Finding(FinalMessage(messages, msg'), FinalKind(kind)))
  }

  /** One iteration of the runner's loop: resolve, call, judge. */
  function Check(host: Host, ctx: Val, value: Val, validator: Library, name: string, desc: Descriptor): Result<Option<Finding>> {
    match Resolve(host, ctx, value, name, desc, validator)
    case Failure(f) => Failure(f)
    case Success(r) =>
      match Invoke(host, ctx, name, r.fn, r.args)
      case Failure(f) => Failure(f)
      case Success(ret) => Success(Verdict(host.messages, ret, r.msg, r.kind))
  }

  /** The findings of the entries in declaration order, or the first fault raised. */
  function Checks(host: Host, ctx: Val, value: Val, validator: Library, entries: Spec): Result<seq<Finding>> {
    if entries == [] then Success([])
    else
      var last := entries[|entries| - 1];
      match Checks(host, ctx, value, validator, entries[..|entries| - 1])
      case Failure(f) => Failure(f)
      case Success(fs) =>
        match Check(host, ctx, value, validator, last.0, last.1)
        case Failure(f) => Failure(f)
        case Success(None) => Success(fs)
        case Success(Some(finding)) => Success(fs + [finding])
  }

  predicate IsError(f: Finding) {
    f.kind == Str(ERROR)
  }

  /** The findings whose kind is exactly `'error'`, in order. */
  function ErrorsOf(fs: seq<Finding>): seq<Finding> {
    if fs == [] then []
    else ErrorsOf(fs[..|fs| - 1]) + (if IsError(fs[|fs| - 1]) then [fs[|fs| - 1]] else [])
  }

  /** The findings of any other kind, in order. */
  function WarningsOf(fs: seq<Finding>): seq<Finding> {
    if fs == [] then []
    else WarningsOf(fs[..|fs| - 1]) + (if IsError(fs[|fs| - 1]) then [] else [fs[|fs| - 1]])
  }

  /** Appending a finding extends exactly one of the two groups. */
  lemma GroupsSnoc(fs: seq<Finding>, f: Finding)
    ensures ErrorsOf(fs + [f]) == ErrorsOf(fs) + (if IsError(f) then [f] else [])
    ensures WarningsOf(fs + [f]) == WarningsOf(fs) + (if IsError(f) then [] else [f])
  {
    assert (fs + [f])[..|fs|] == fs;
  }

  /** The library a run uses: the one passed in, or the default `validator` package. */
  function LibraryOf(host: Host, validator: Option<Library>): Library {
    if validator.Some? then validator.value else host.defaultLibrary
  }

  /**
   What the runner returns: nothing when the value or the descriptors are
   `undefined`; otherwise the errors followed by the warnings, unless some
   entry throws.
   */
  function Validation(host: Host, ctx: Val, fieldValue: Val, fieldValidations: Option<Spec>, validator: Option<Library>): Result<seq<Finding>> {
    if fieldValue == Undef || fieldValidations.None? then Success([])
    else
      match Checks(host, ctx, fieldValue, LibraryOf(host, validator), fieldValidations.value)
      case Failure(f) => Failure(f)
      case Success(fs) => Success(ErrorsOf(fs) + WarningsOf(fs))
  }

  /** Once a prefix of the entries has thrown, no later entry changes the outcome. */
  lemma {:induction false} FaultStops(host: Host, ctx: Val, value: Val, validator: Library, entries: Spec, k: nat)
    requires k <= |entries|
    requires Checks(host, ctx, value, validator, entries[..k]).Failure?
    ensures Checks(host, ctx, value, validator, entries) == Checks(host, ctx, value, validator, entries[..k])
    decreases |entries| - k
  {
    if k < |entries| {
      var next := entries[..k + 1];
      assert next[..k] == entries[..k];
      FaultStops(host, ctx, value, validator, entries, k + 1);
    } else {
      assert entries[..k] == entries;
    }
  }

  /** Extending the entries by one: the new entry's fault, or its finding appended, if any. */
  lemma ChecksStep(host: Host, ctx: Val, value: Val, validator: Library, entries: Spec, i: nat)
    requires i < |entries|
    requires Checks(host, ctx, value, validator, entries[..i]).Success?
    ensures var prefix := Checks(host, ctx, value, validator, entries[..i]).value;
      Checks(host, ctx, value, validator, entries[..i + 1]) ==
        match Check(host, ctx, value, validator, entries[i].0, entries[i].1)
        case Failure(f) => Failure(f)
        case Success(None) => Success(prefix)
        case Success(Some(finding)) => Success(prefix + [finding])
  {
    assert entries[..i + 1][..i] == entries[..i];
  }

  /**
   One pass of the runner's loop body for the entry `name: desc`: resolve the
   descriptor, call the function with `ctx` as `this`, then read the return
   value. A string fails and replaces the message, `undefined` passes, any
   other value passes when truthy; a failure gets its kind (defaulting to
   `'error'`) and its final message.
   */
  method RunEntry(host: Host, ctx: Val, fieldValue: Val, validator: Library, name: string, desc: Descriptor)
    returns (r: Result<Option<Finding>>)
    ensures r == Check(host, ctx, fieldValue, validator, name, desc)
  {
    var parsed := Resolve(host, ctx, fieldValue, name, desc, validator);
    if parsed.Failure? {
      return Failure(parsed.fault);
    }
    var fn, args, msg, kind := parsed.value.fn, parsed.value.args, parsed.value.msg, parsed.value.kind;
    var called := Invoke(host, ctx, name, fn, args);
    if called.Failure? {
      return Failure(called.fault);
    }
    var valid := called.value;
    if valid.Str? {
      msg := Some(valid.s);
      valid := Bool(false);
    }
    valid := if valid == Undef then Bool(true) else valid;
    if Truthy(valid) {
      return Success(None);
    }
    kind := if Truthy(kind) then kind else Str(ERROR);
    msg := Some(FinalMessage(host.messages, msg));
    r := Success(Some(Finding(msg.value, kind)));
  }

  /**
   The exported runner. Each descriptor is run in declaration order; each
   failure is pushed onto `errors` when its kind is exactly `'error'` and onto
   `warnings` otherwise; a fault aborts the run with no partial result.
   */
  method Validate(host: Host, ctx: Val, fieldValue: Val, fieldValidations: Option<Spec>, validator: Option<Library>)
    returns (r: Result<seq<Finding>>)
    ensures fieldValue == Undef || fieldValidations.None? ==> r == Success([])
    ensures r == Validation(host, ctx, fieldValue, fieldValidations, validator)
  {
    var lib := if validator.Some? then validator.value else host.defaultLibrary;
    var errors: seq<Finding> := [];
    var warnings: seq<Finding> := [];
    if fieldValue == Undef || fieldValidations.None? {
      return Success(errors);
    }
    var entries := fieldValidations.value;
    for i := 0 to |entries|
      invariant Checks(host, ctx, fieldValue, lib, entries[..i]).Success?
      invariant errors == ErrorsOf(Checks(host, ctx, fieldValue, lib, entries[..i]).value)
      invariant warnings == WarningsOf(Checks(host, ctx, fieldValue, lib, entries[..i]).value)
    {
      ChecksStep(host, ctx, fieldValue, lib, entries, i);
      var (name, desc) := entries[i];
      var outcome := RunEntry(host, ctx, fieldValue, lib, name, desc);
      if outcome.Failure? {
        FaultStops(host, ctx, fieldValue, lib, entries, i + 1);
        assert entries[..|entries|] == entries;
        return Failure(outcome.fault);
      }
      if outcome.value.Some? {
        var finding := outcome.value.value;
        GroupsSnoc(Checks(host, ctx, fieldValue, lib, entries[..i]).value, finding);
        if finding.kind == Str(ERROR) {
          errors := errors + [finding];
        } else {
          warnings := warnings + [finding];
        }
      }
    }
    assert entries[..|entries|] == entries;
    r := Success(errors + warnings);
  }
}
