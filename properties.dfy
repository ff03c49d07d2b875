/**
 What validate.js promises about resolving descriptors, interpolating
 messages, judging return values and ordering the findings, stated and
 proved over the model in module Validate.
 */
module ValidateProperties {
  import opened Js
  import opened Validate

  /** The descriptor names a custom function: a bare function, or a record whose `arg` is one. */
  predicate IsCustom(desc: Descriptor) {
    match desc
    case Record(arg, _, _) => arg.Func?
    case Bare(v) => v.Func?
  }

  /** The descriptor's argument value: `arg` of a record, the value itself otherwise. */
  function ArgOf(desc: Descriptor): Val {
    match desc
    case Record(arg, _, _) => arg
    case Bare(v) => v
  }

  /** How many of the entries fail (pass resolution and the call, and are judged failed). */
  function Failures(host: Host, ctx: Val, value: Val, validator: Library, entries: Spec): nat {
    if entries == [] then 0
    else
      var last := entries[|entries| - 1];
      var outcome := Check(host, ctx, value, validator, last.0, last.1);
      Failures(host, ctx, value, validator, entries[..|entries| - 1])
        + (if outcome.Success? && outcome.value.Some? then 1 else 0)
  }

  // ----- parseValidation -----------------------------------------------------

  /**
   Resolution throws `UnknownValidation(name)` exactly when the descriptor is
   not a custom function, the library has no function under `name`, and the
   arguments do not start with `false`.
   */
  lemma ResolveFailsIff(host: Host, ctx: Val, value: Val, name: string, desc: Descriptor, validator: Library)
    ensures Resolve(host, ctx, value, name, desc, validator).Failure?
        <==> !IsCustom(desc) && Lookup(validator, name) == Undef && !LeadingFalse(Concat(ArgOf(desc)))
    ensures Resolve(host, ctx, value, name, desc, validator).Failure?
        ==> Resolve(host, ctx, value, name, desc, validator).fault == UnknownValidation(name)
  {
  }

  /**
   Library mode: the arguments are the value followed by the descriptor's
   argument, an array spread and a scalar (a boolean flag included) kept as
   the single second argument; `fn` is the library function, negated exactly
   when the first extra argument is `false`.
   */
  lemma LibraryArguments(host: Host, ctx: Val, value: Val, name: string, desc: Descriptor, validator: Library)
    requires !IsCustom(desc)
    requires Resolve(host, ctx, value, name, desc, validator).Success?
    ensures var r := Resolve(host, ctx, value, name, desc, validator).value;
      && |r.args| >= 1 && r.args[0] == value
      && (ArgOf(desc).Arr? ==> r.args[1..] == ArgOf(desc).items)
      && (!ArgOf(desc).Arr? ==> r.args == [value, ArgOf(desc)])
      && r.fn == (if LeadingFalse(r.args[1..]) then Negated(Lookup(validator, name))
                  else Direct(Lookup(validator, name)))
  {
  }

  /**
   A leading `false` never fails resolution, even with no library function;
   the call then runs the library function once, without a receiver, and
   yields the boolean negation of its truthiness, or throws a TypeError when
   there is no function to call. A string the function returns is lost: the
   finding's message comes from the descriptor or the message table.
   */
  lemma NegatedCall(host: Host, ctx: Val, value: Val, name: string, desc: Descriptor, validator: Library)
    requires !IsCustom(desc) && LeadingFalse(Concat(ArgOf(desc)))
    ensures Resolve(host, ctx, value, name, desc, validator).Success?
    ensures var r := Resolve(host, ctx, value, name, desc, validator).value;
      var f := Lookup(validator, name);
      && Invoke(host, ctx, name, r.fn, r.args)
           == (if f.Func? then Success(Bool(!Truthy(host.apply(f.id, Undef, r.args)))) else Failure(NotCallable(name)))
      && (Check(host, ctx, value, validator, name, desc).Success?
          && Check(host, ctx, value, validator, name, desc).value.Some?
          ==> Check(host, ctx, value, validator, name, desc).value.value.msg == FinalMessage(host.messages, r.msg))
  {
  }

  /**
   Custom mode: the function is called with exactly the field value, and with
   the run's context as `this`.
   */
  lemma CustomCall(host: Host, ctx: Val, value: Val, name: string, desc: Descriptor, validator: Library)
    requires IsCustom(desc)
    ensures Resolve(host, ctx, value, name, desc, validator).Success?
    ensures var r := Resolve(host, ctx, value, name, desc, validator).value;
      && r.args == [value]
      && r.fn == Direct(ArgOf(desc))
      && Invoke(host, ctx, name, r.fn, r.args) == Success(host.apply(ArgOf(desc).id, ctx, [value]))
  {
  }

  /**
   Only a record carries a message and a kind. Its message is interpolated
   against the final arguments at resolution time, whether or not it starts
   with `#`.
   */
  lemma DescriptorMessageAndKind(host: Host, ctx: Val, value: Val, name: string, desc: Descriptor, validator: Library)
    requires Resolve(host, ctx, value, name, desc, validator).Success?
    ensures var r := Resolve(host, ctx, value, name, desc, validator).value;
      && (desc.Bare? ==> r.msg == None && r.kind == Undef)
      && (desc.Record? ==> r.kind == desc.kind)
      && (desc.Record? && desc.msg.Some? ==> r.msg == Some(Render(host, ctx, r.args, desc.msg.value)))
      && (desc.Record? && desc.msg.None? ==> r.msg == None)
  {
  }

  // ----- message interpolation -----------------------------------------------

  /** Interpolation works piece by piece: rendering a concatenation concatenates the renderings. */
  lemma {:induction false} RenderAppend(host: Host, ctx: Val, args: seq<Val>, t1: Template, t2: Template)
    ensures Render(host, ctx, args, t1 + t2) == Render(host, ctx, args, t1) + Render(host, ctx, args, t2)
    decreases |t1|
  {
    if t1 == [] {
      assert t1 + t2 == t2;
    } else {
      assert (t1 + t2)[0] == t1[0];
      assert (t1 + t2)[1..] == t1[1..] + t2;
      RenderAppend(host, ctx, args, t1[1..], t2);
    }
  }

  /**
   `$i` names argument `i` (argument 0 is the field value): it is replaced by
   that argument when it exists and is truthy, and by the path `i` looked up
   in the context otherwise (an index past the last argument included).
   */
  lemma PlaceholderIndex(host: Host, ctx: Val, args: seq<Val>, i: nat)
    ensures var token := NatToDecimal(i);
      Render(host, ctx, args, [Placeholder(token)])
        == ToStr(if i < |args| && Truthy(args[i]) then args[i] else host.pathGet(ctx, token), host.display)
  {
    DecimalRoundTrip(i);
  }

  /** A token that is neither an index nor `length` (`a.b`, `dates[0]`) is read from the context. */
  lemma PlaceholderPath(host: Host, ctx: Val, args: seq<Val>, token: string)
    requires !IsArrayIndex(token) && token != "length"
    ensures Render(host, ctx, args, [Placeholder(token)]) == ToStr(host.pathGet(ctx, token), host.display)
  {
  }

  /** A placeholder that resolves to nothing is rendered as the text `undefined`. */
  lemma PlaceholderUnresolved(host: Host, ctx: Val, args: seq<Val>, token: string)
    requires !Truthy(ArgAt(args, token)) && host.pathGet(ctx, token) == Undef
    ensures Render(host, ctx, args, [Placeholder(token)]) == "undefined"
  {
  }

  // ----- judging one return value ---------------------------------------------

  /**
   Once resolved and called, an entry fails exactly when the function returned
   a string, or a falsy value other than `undefined`; a call that throws
   aborts with that fault.
   */
  lemma ReturnValueJudged(host: Host, ctx: Val, value: Val, name: string, desc: Descriptor, validator: Library)
    requires Resolve(host, ctx, value, name, desc, validator).Success?
    ensures var r := Resolve(host, ctx, value, name, desc, validator).value;
      var call := Invoke(host, ctx, name, r.fn, r.args);
      var c := Check(host, ctx, value, validator, name, desc);
      && (call.Failure? ==> c == Failure(call.fault))
      && (call.Success? ==> c.Success? && (c.value.Some? <==> call.value.Str? || (call.value != Undef && !Truthy(call.value))))
  {
  }

  /** The message-table entry for a key, or the default message when that entry is empty. */
  function LookupOrDefault(messages: string -> string, key: string): string {
    if messages(key) != "" then messages(key) else messages(DEFAULT_ERROR_MSG_KEY)
  }

  /**
   The message of a failure, in order of precedence: a non-empty string the
   function returned, which replaces the descriptor's message; then a `#`
   message is looked up (key taken whole, `#` included); any other non-empty
   message is used as it is; otherwise the default message. An empty
   returned string discards the descriptor's message.
   */
  lemma MessagePrecedence(messages: string -> string, ret: Val, msg: Option<string>, kind: Val)
    requires Verdict(messages, ret, msg, kind).Some?
    ensures var text := Verdict(messages, ret, msg, kind).value.msg;
      var fallback := messages(DEFAULT_ERROR_MSG_KEY);
      && (ret.Str? && ret.s != "" && ret.s[0] != '#' ==> text == ret.s)
      && (ret.Str? && ret.s != "" && ret.s[0] == '#' ==> text == LookupOrDefault(messages, ret.s))
      && (ret.Str? && ret.s == "" ==> text == fallback)
      && (!ret.Str? && msg.Some? && msg.value != "" && msg.value[0] == '#' ==> text == LookupOrDefault(messages, msg.value))
      && (!ret.Str? && msg.Some? && msg.value != "" && msg.value[0] != '#' ==> text == msg.value)
      && (!ret.Str? && (msg.None? || msg.value == "") ==> text == fallback)
  {
  }

  /** A failure's kind is the descriptor's kind when truthy and `'error'` otherwise; it is never falsy. */
  lemma FindingKind(messages: string -> string, ret: Val, msg: Option<string>, kind: Val)
    requires Verdict(messages, ret, msg, kind).Some?
    ensures var k := Verdict(messages, ret, msg, kind).value.kind;
      && Truthy(k)
      && (Truthy(kind) ==> k == kind)
      && (!Truthy(kind) ==> k == Str(ERROR))
  {
  }

  // ----- the runner -----------------------------------------------------------

  /** A run over the entries succeeds exactly when no single entry throws. */
  lemma {:induction false} RunSucceedsIff(host: Host, ctx: Val, value: Val, validator: Library, entries: Spec)
    ensures Checks(host, ctx, value, validator, entries).Success?
        <==> forall i :: 0 <= i < |entries| ==> Check(host, ctx, value, validator, entries[i].0, entries[i].1).Success?
  {
    if entries != [] {
      var n := |entries| - 1;
      var init := entries[..n];
      RunSucceedsIff(host, ctx, value, validator, init);
      assert Checks(host, ctx, value, validator, entries).Success?
          <==> Checks(host, ctx, value, validator, init).Success?
               && Check(host, ctx, value, validator, entries[n].0, entries[n].1).Success?;
      assert forall i :: 0 <= i < n ==> init[i] == entries[i];
    }
  }

  /**
   The first entry that throws decides the run: the whole run throws its
   fault, whatever the entries after it are, so no later entry is consulted
   and no partial result is returned.
   */
  lemma FirstFaultAborts(host: Host, ctx: Val, value: Val, validator: Library, entries: Spec, k: nat, rest: Spec)
    requires k < |entries|
    requires forall i :: 0 <= i < k ==> Check(host, ctx, value, validator, entries[i].0, entries[i].1).Success?
    requires Check(host, ctx, value, validator, entries[k].0, entries[k].1).Failure?
    ensures var fault := Check(host, ctx, value, validator, entries[k].0, entries[k].1).fault;
      && Checks(host, ctx, value, validator, entries) == Failure(fault)
      && Checks(host, ctx, value, validator, entries[..k + 1] + rest) == Failure(fault)
  {
    var prefix := entries[..k];
    assert forall i :: 0 <= i < k ==> prefix[i] == entries[i];
    RunSucceedsIff(host, ctx, value, validator, prefix);
    ChecksStep(host, ctx, value, validator, entries, k);
    FaultStops(host, ctx, value, validator, entries, k + 1);
    var longer := entries[..k + 1] + rest;
    assert longer[..k + 1] == entries[..k + 1];
    FaultStops(host, ctx, value, validator, longer, k + 1);
  }

  /** One finding per failed entry, none per passed one. */
  lemma {:induction false} FindingCount(host: Host, ctx: Val, value: Val, validator: Library, entries: Spec)
    requires Checks(host, ctx, value, validator, entries).Success?
    ensures |Checks(host, ctx, value, validator, entries).value| == Failures(host, ctx, value, validator, entries)
  {
    if entries != [] {
      FindingCount(host, ctx, value, validator, entries[..|entries| - 1]);
    }
  }

  /**
   The finding of a failed entry sits after the findings of all failed
   entries declared before it: declaration order is kept.
   */
  lemma {:induction false} FindingOfEntry(host: Host, ctx: Val, value: Val, validator: Library, entries: Spec, i: nat)
    requires i < |entries|
    requires Checks(host, ctx, value, validator, entries).Success?
    requires Check(host, ctx, value, validator, entries[i].0, entries[i].1).Success?
    requires Check(host, ctx, value, validator, entries[i].0, entries[i].1).value.Some?
    ensures var fs := Checks(host, ctx, value, validator, entries).value;
      var at := Failures(host, ctx, value, validator, entries[..i]);
      at < |fs| && fs[at] == Check(host, ctx, value, validator, entries[i].0, entries[i].1).value.value
    decreases |entries|
  {
    var init := entries[..|entries| - 1];
    if i == |entries| - 1 {
      FindingCount(host, ctx, value, validator, init);
    } else {
      assert init[i] == entries[i];
      assert init[..i] == entries[..i];
      FindingOfEntry(host, ctx, value, validator, init, i);
    }
  }

  /** Each finding lands in exactly one group, so the two groups together rearrange the findings. */
  lemma {:induction false} GroupsRearrange(fs: seq<Finding>)
    ensures multiset(ErrorsOf(fs) + WarningsOf(fs)) == multiset(fs)
  {
    if fs != [] {
      var init, last := fs[..|fs| - 1], fs[|fs| - 1];
      GroupsRearrange(init);
      GroupsSnoc(init, last);
      assert fs == init + [last];
    }
  }

  /** Every finding in the errors group is of kind `'error'`; none in the warnings group is. */
  lemma {:induction false} GroupsKinds(fs: seq<Finding>)
    ensures forall k :: 0 <= k < |ErrorsOf(fs)| ==> IsError(ErrorsOf(fs)[k])
    ensures forall k :: 0 <= k < |WarningsOf(fs)| ==> !IsError(WarningsOf(fs)[k])
  {
    if fs != [] {
      GroupsKinds(fs[..|fs| - 1]);
    }
  }

  /** In errors followed by warnings, no finding of another kind precedes an error-kind one. */
  lemma GroupsOrdered(fs: seq<Finding>)
    ensures var out := ErrorsOf(fs) + WarningsOf(fs);
      forall i, j :: 0 <= i < j < |out| && IsError(out[j]) ==> IsError(out[i])
  {
    GroupsKinds(fs);
    var errors, warnings := ErrorsOf(fs), WarningsOf(fs);
    var out := errors + warnings;
    assert forall k :: 0 <= k < |errors| ==> out[k] == errors[k];
    assert forall k :: |errors| <= k < |out| ==> out[k] == warnings[k - |errors|];
  }

  /**
   The runner's result lists every error-kind finding before every other
   one and is a rearrangement of the findings of the failed entries, one per
   failure.
   */
  lemma ValidationErrorsFirst(host: Host, ctx: Val, fieldValue: Val, fieldValidations: Option<Spec>, validator: Option<Library>)
    requires fieldValue != Undef && fieldValidations.Some?
    requires Validation(host, ctx, fieldValue, fieldValidations, validator).Success?
    ensures var out := Validation(host, ctx, fieldValue, fieldValidations, validator).value;
      var lib := LibraryOf(host, validator);
      var entries := fieldValidations.value;
      && (forall i, j :: 0 <= i < j < |out| && IsError(out[j]) ==> IsError(out[i]))
      && multiset(out) == multiset(Checks(host, ctx, fieldValue, lib, entries).value)
      && |out| == Failures(host, ctx, fieldValue, lib, entries)
  {
    var lib := LibraryOf(host, validator);
    var entries := fieldValidations.value;
    var fs := Checks(host, ctx, fieldValue, lib, entries).value;
    var out := ErrorsOf(fs) + WarningsOf(fs);
    assert Validation(host, ctx, fieldValue, fieldValidations, validator) == Success(out);
    GroupsRearrange(fs);
    GroupsOrdered(fs);
    FindingCount(host, ctx, fieldValue, lib, entries);
    assert |out| == |fs| by {
      assert |multiset(out)| == |multiset(fs)|;
    }
  }

  /** Two entries that both fail give their two findings in declaration order. */
  lemma TwoFailures(host: Host, ctx: Val, value: Val, validator: Library,
                    first: (string, Descriptor), second: (string, Descriptor), f1: Finding, f2: Finding)
    requires Check(host, ctx, value, validator, first.0, first.1) == Success(Some(f1))
    requires Check(host, ctx, value, validator, second.0, second.1) == Success(Some(f2))
    ensures Checks(host, ctx, value, validator, [first, second]) == Success([f1, f2])
  {
    var entries := [first, second];
    assert entries[..0] == [];
    ChecksStep(host, ctx, value, validator, entries, 0);
    assert [] + [f1] == [f1];
    ChecksStep(host, ctx, value, validator, entries, 1);
    assert entries[..2] == entries;
    assert [f1] + [f2] == [f1, f2];
  }

  /**
   A failing warning declared before a failing error comes back after it:
   the run returns the error first.
   */
  lemma ErrorBeforeEarlierWarning(host: Host, ctx: Val, value: Val, validator: Library,
                                  first: (string, Descriptor), second: (string, Descriptor), warning: Finding, error: Finding)
    requires value != Undef
    requires Check(host, ctx, value, validator, first.0, first.1) == Success(Some(warning)) && !IsError(warning)
    requires Check(host, ctx, value, validator, second.0, second.1) == Success(Some(error)) && IsError(error)
    ensures Validation(host, ctx, value, Some([first, second]), Some(validator)) == Success([error, warning])
  {
    var entries := [first, second];
    TwoFailures(host, ctx, value, validator, first, second, warning, error);
    TwoGroups(warning, error);
    assert LibraryOf(host, Some(validator)) == validator;
    assert Checks(host, ctx, value, validator, entries) == Success([warning, error]);
  }

  /** A non-error finding followed by an error finding is regrouped error first. */
  lemma TwoGroups(warning: Finding, error: Finding)
    requires !IsError(warning) && IsError(error)
    ensures ErrorsOf([warning, error]) + WarningsOf([warning, error]) == [error, warning]
  {
    GroupsSnoc([], warning);
    assert [] + [warning] == [warning];
    GroupsSnoc([warning], error);
    assert [warning] + [error] == [warning, error];
  }
}
