/** The compatibility layer that lets old-style `plugin(name, fn)` calls
    register on the new named hooks: a bail hook with two taps, one adding
    the camelCase form of the name, one tapping the first hook found. */
module TapableCompat {
  import opened Wrappers
  import opened Seqs
  import opened Strings

  /** The characters the camelCase pattern `[- ]` accepts before a letter. */
  predicate IsSeparator(ch: char) {
    ch == '-' || ch == ' '
  }

  /** `s` contains a match of `/[- ]([a-z])/`. */
  ghost predicate HasMatch(s: string) {
    exists i :: 0 <= i < |s| - 1 && IsSeparator(s[i]) && IsLower(s[i + 1])
  }

  /** `s.replace(/[- ]([a-z])/g, (str, ch) => ch.toUpperCase())`: scanning
      left to right, each separator followed by a lower-case letter becomes
      that letter in upper case. */
  function CamelCase(s: string): (r: string)
    ensures |r| <= |s|
    decreases |s|
  {
    if s == [] then []
    else if |s| >= 2 && IsSeparator(s[0]) && IsLower(s[1]) then [ToUpper(s[1])] + CamelCase(s[2..])
    else [s[0]] + CamelCase(s[1..])
  }

  /** The first character keeps its case class: the output starts with a
      lower-case letter exactly when the input does. */
  lemma CamelCaseHead(s: string)
    requires s != []
    ensures CamelCase(s) != [] && (IsLower(CamelCase(s)[0]) <==> IsLower(s[0]))
  {
  }

  /** A string without a match is left alone. */
  lemma {:induction false} CamelCaseUnmatched(s: string)
    requires !HasMatch(s)
    ensures CamelCase(s) == s
    decreases |s|
  {
    if s != [] {
      assert !HasMatch(s[1..]);
      if |s| >= 2 {
        assert !(IsSeparator(s[0]) && IsLower(s[1]));
      }
      CamelCaseUnmatched(s[1..]);
    }
  }

  /** A string with a match gets shorter. */
  lemma {:induction false} CamelCaseMatchedShrinks(s: string)
    requires HasMatch(s)
    ensures |CamelCase(s)| < |s|
    decreases |s|
  {
    var i :| 0 <= i < |s| - 1 && IsSeparator(s[i]) && IsLower(s[i + 1]);
    if !(|s| >= 2 && IsSeparator(s[0]) && IsLower(s[1])) {
      assert i >= 1;
      assert IsSeparator(s[1..][i - 1]) && IsLower(s[1..][i]);
      CamelCaseMatchedShrinks(s[1..]);
    }
  }

  /** The output never holds a match, so the rewrite is idempotent. */
  lemma {:induction false} CamelCaseNoMatch(s: string)
    ensures !HasMatch(CamelCase(s))
    decreases |s|
  {
    if s != [] {
      var r := CamelCase(s);
      if |s| >= 2 && IsSeparator(s[0]) && IsLower(s[1]) {
        var rest := CamelCase(s[2..]);
        CamelCaseNoMatch(s[2..]);
        NoMatchCons(ToUpper(s[1]), rest);
      } else {
        var rest := CamelCase(s[1..]);
        CamelCaseNoMatch(s[1..]);
        if IsSeparator(s[0]) && |s| >= 2 {
          CamelCaseHead(s[1..]);
        }
        NoMatchCons(s[0], rest);
      }
    }
  }

  /** A match in `[c] + t` lies in `t` or at its first two characters. */
  lemma NoMatchCons(c: char, t: string)
    requires !HasMatch(t)
    requires t != [] && IsSeparator(c) ==> !IsLower(t[0])
    ensures !HasMatch([c] + t)
  {
  }

  /** A string is its own camelCase form exactly when it has no match. */
  lemma CamelCaseFixedPoint(s: string)
    ensures CamelCase(s) == s <==> !HasMatch(s)
  {
    if HasMatch(s) {
      CamelCaseMatchedShrinks(s);
    } else {
      CamelCaseUnmatched(s);
    }
  }

  /** Normalising twice is normalising once. */
  lemma CamelCaseIdempotent(s: string)
    ensures CamelCase(CamelCase(s)) == CamelCase(s)
  {
    CamelCaseNoMatch(s);
    CamelCaseUnmatched(CamelCase(s));
  }

  /** The rewrite itself: up to its first match the name is copied, the
      separator and the lower-case letter after it become that letter in
      upper case, and the rest is rewritten the same way. */
  lemma {:induction false} CamelCaseFirstMatch(x: string, sep: char, c: char, y: string)
    requires !HasMatch(x) && IsSeparator(sep) && IsLower(c)
    ensures CamelCase(x + [sep, c] + y) == x + [ToUpper(c)] + CamelCase(y)
    decreases |x|
  {
    var s := x + [sep, c] + y;
    if x == [] {
      assert s == [sep, c] + y && s[2..] == y;
    } else {
      assert s[1..] == x[1..] + [sep, c] + y;
      assert !(IsSeparator(s[0]) && IsLower(s[1])) by {
        if |x| >= 2 {
          assert s[0] == x[0] && s[1] == x[1];
        } else {
          assert s[1] == sep;
        }
      }
      CamelCaseFirstMatch(x[1..], sep, c, y);
      assert x + [ToUpper(c)] + CamelCase(y) == [x[0]] + (x[1..] + [ToUpper(c)] + CamelCase(y));
    }
  }

  /** Every name with a match splits at its first match, as
      `CamelCaseFirstMatch` expects. */
  lemma MatchSplits(s: string) returns (x: string, sep: char, c: char, y: string)
    requires HasMatch(s)
    ensures s == x + [sep, c] + y
    ensures !HasMatch(x) && IsSeparator(sep) && IsLower(c)
  {
    var i := 0;
    while !(IsSeparator(s[i]) && IsLower(s[i + 1]))
      invariant 0 <= i < |s| - 1
      invariant exists k :: i <= k < |s| - 1 && IsSeparator(s[k]) && IsLower(s[k + 1])
      invariant forall j :: 0 <= j < i ==> !(IsSeparator(s[j]) && IsLower(s[j + 1]))
      decreases |s| - i
    {
      i := i + 1;
    }
    x, sep, c, y := s[..i], s[i], s[i + 1], s[i + 2..];
    assert s == x + [sep, c] + y;
  }

  /** A plugin function; only its `name` is observable here. */
  datatype Fn = Fn(name: string)

  /** The argument of a `_pluginCompat` call. `names` is the `Set` of
      candidate hook names in insertion order; `stage` and `async` are
      absent (`None`, `false`) in the calls `plugin` makes. */
  datatype CompatOptions = CompatOptions(name: string, fn: Fn, names: seq<string>, stage: Option<int>, async: bool)

  /** The options a hook is tapped with. */
  datatype TapOptions = TapOptions(name: string, stage: int)

  /** One registration on a named hook, with `tapAsync` when `async`. */
  datatype Tapped = Tapped(hook: string, options: TapOptions, fn: Fn, async: bool)

  /** The names whose entry in `this.hooks` is defined. */
  type Hooks = set<string>

  /** The first name, in order, with a defined hook. */
  function FirstHook(names: seq<string>, hooks: Hooks): (r: Option<string>)
    ensures r.None? <==> forall i :: 0 <= i < |names| ==> names[i] !in hooks
    ensures r.Some? ==> r.value in hooks && r.value in names &&
                        forall i :: 0 <= i < IndexOf(names, r.value) ==> names[i] !in hooks
  {
    if names == [] then None
    else if names[0] in hooks then Some(names[0])
    else
      var r := FirstHook(names[1..], hooks);
      assert forall i :: 0 < i < |names| ==> names[i] == names[1..][i - 1];
      if r.Some? then
        assert IndexOf(names, r.value) == IndexOf(names[1..], r.value) + 1;
        r
      else r
  }

  /** The two taps `Tapable` puts on `_pluginCompat`. */
  datatype CompatTap = CamelCaseTap | LookupTap

  function Stage(t: CompatTap): int {
    match t
    case CamelCaseTap => 100
    case LookupTap => 200
  }

  ghost predicate StageSorted(taps: seq<CompatTap>) {
    forall i, j :: 0 <= i < j < |taps| ==> Stage(taps[i]) <= Stage(taps[j])
  }

  /** Tapping a hook: the new tap goes after every tap of no greater stage. */
  function Register(taps: seq<CompatTap>, t: CompatTap): (r: seq<CompatTap>)
    ensures multiset(r) == multiset(taps) + multiset{t}
    ensures StageSorted(taps) ==> StageSorted(r)
  {
    if taps == [] then [t]
    else if Stage(taps[0]) > Stage(t) then [t] + taps
    else
      var rest := Register(taps[1..], t);
      assert taps == [taps[0]] + taps[1..];
      SortedCons(taps[0], taps[1..], t, rest);
      [taps[0]] + rest
  }

  /** Putting `h` in front of a sorted list of `tail`'s taps and `t` keeps it
      sorted when `h` came first in `taps` and `t` does not precede it. */
  lemma SortedCons(h: CompatTap, tail: seq<CompatTap>, t: CompatTap, rest: seq<CompatTap>)
    requires multiset(rest) == multiset(tail) + multiset{t}
    requires Stage(h) <= Stage(t)
    requires StageSorted([h] + tail) ==> StageSorted(rest)
    ensures StageSorted([h] + tail) ==> StageSorted([h] + rest)
  {
    if StageSorted([h] + tail) {
      forall j | 0 <= j < |rest|
        ensures Stage(h) <= Stage(rest[j])
      {
        var x := rest[j];
        assert x in multiset(rest);
        if x != t {
          assert multiset(rest)[x] == multiset(tail)[x];
          assert x in multiset(tail);
          assert x in tail;
          var k :| 0 <= k < |tail| && tail[k] == x;
          assert ([h] + tail)[0] == h;
          assert ([h] + tail)[k + 1] == x;
        }
      }
      var s := [h] + rest;
      forall i, j | 0 <= i < j < |s|
        ensures Stage(s[i]) <= Stage(s[j])
      {
        if i > 0 {
          assert s[i] == rest[i - 1] && s[j] == rest[j - 1];
        } else {
          assert s[j] == rest[j - 1];
        }
      }
    }
  }

  /** The taps in the order the constructor registers them, which is also
      their stage order: the camelCase tap runs before the lookup. */
  function CompatTaps(): (taps: seq<CompatTap>)
    ensures taps == [CamelCaseTap, LookupTap]
    ensures StageSorted(taps)
  {
    Register(Register([], CamelCaseTap), LookupTap)
  }

  /** The outcome of a call: the bail value (`None` for `undefined`) and the
      registrations made on the way. */
  datatype CallResult = CallResult(value: Option<bool>, tapped: seq<Tapped>)

  /** The name a tap is registered under. */
  function TapName(fn: Fn): string {
    if fn.name != "" then fn.name else "unnamed compat plugin"
  }

  /** One tap's body on the current options: the new options, its return
      value and its registrations. */
  function RunTap(t: CompatTap, hooks: Hooks, o: CompatOptions): (CompatOptions, CallResult) {
    match t
    case CamelCaseTap =>
      (o.(names := SetAdd(o.names, CamelCase(o.name))), CallResult(None, []))
    case LookupTap =>
      var hook := FirstHook(o.names, hooks);
      if hook.Some? then
        (o, CallResult(Some(true), [Tapped(hook.value, TapOptions(TapName(o.fn), o.stage.GetOr(0)), o.fn, o.async)]))
      else (o, CallResult(None, []))
  }

  /** A bail hook's call: taps run in order until one returns a value. */
  function CallBail(taps: seq<CompatTap>, hooks: Hooks, o: CompatOptions): CallResult {
    if taps == [] then CallResult(None, [])
    else
      var (o', first) := RunTap(taps[0], hooks, o);
      if first.value.Some? then first
      else
        var rest := CallBail(taps[1..], hooks, o');
        CallResult(rest.value, first.tapped + rest.tapped)
  }

  /** The name is registrable: it or its camelCase form has a hook. */
  ghost predicate Registrable(hooks: Hooks, names: seq<string>) {
    exists i :: 0 <= i < |names| && names[i] in hooks
  }

  lemma FirstHookRegistrable(names: seq<string>, hooks: Hooks)
    ensures FirstHook(names, hooks).Some? <==> Registrable(hooks, names)
  {
    var r := FirstHook(names, hooks);
    if r.Some? {
      var i := IndexOf(names, r.value);
      assert names[i] in hooks;
    }
  }

  /** The two compat taps in stage order: the camelCase tap adds a
      candidate and returns `undefined`, so the lookup always runs. */
  lemma CompatCallSteps(hooks: Hooks, o: CompatOptions)
    ensures var candidates := SetAdd(o.names, CamelCase(o.name));
            var hook := FirstHook(candidates, hooks);
            CallBail(CompatTaps(), hooks, o) ==
              if hook.Some? then
                CallResult(Some(true), [Tapped(hook.value, TapOptions(TapName(o.fn), o.stage.GetOr(0)), o.fn, o.async)])
              else CallResult(None, [])
  {
    var taps := CompatTaps();
    var candidates := SetAdd(o.names, CamelCase(o.name));
    var o' := o.(names := candidates);
    var hook := FirstHook(candidates, hooks);
    assert taps[1..] == [LookupTap];
    assert [LookupTap][1..] == [];
    var last := CallBail([LookupTap], hooks, o');
    if hook.Some? {
      var tapped := Tapped(hook.value, TapOptions(TapName(o.fn), o.stage.GetOr(0)), o.fn, o.async);
      assert RunTap(LookupTap, hooks, o') == (o', CallResult(Some(true), [tapped]));
      assert last == CallResult(Some(true), [tapped]);
    } else {
      assert RunTap(LookupTap, hooks, o') == (o', CallResult(None, []));
      assert CallBail([], hooks, o') == CallResult(None, []);
      assert last == CallResult(None, [] + []);
    }
    assert RunTap(CamelCaseTap, hooks, o) == (o', CallResult(None, []));
    assert CallBail(taps, hooks, o) == CallResult(last.value, [] + last.tapped);
  }

  /** `_pluginCompat.call(options)`: the camelCase form joins the candidate
      names, then the first candidate with a hook is tapped with the plugin
      function, its name (or "unnamed compat plugin"), the requested stage (or
      0), asynchronously iff requested; the call returns `true`. With no
      candidate hook nothing is tapped and the call returns `undefined`. */
  function PluginCompat(hooks: Hooks, o: CompatOptions): (r: CallResult)
    ensures var candidates := SetAdd(o.names, CamelCase(o.name));
            (r.value == Some(true) <==> Registrable(hooks, candidates)) &&
            (r.value.None? <==> !Registrable(hooks, candidates)) &&
            (r.value.Some? ==> r.tapped == [Tapped(FirstHook(candidates, hooks).value,
                                                   TapOptions(TapName(o.fn), o.stage.GetOr(0)), o.fn, o.async)]) &&
            (r.value.None? ==> r.tapped == [])
  {
    FirstHookRegistrable(SetAdd(o.names, CamelCase(o.name)), hooks);
    CompatCallSteps(hooks, o);
    CallBail(CompatTaps(), hooks, o)
  }

  /** The error `plugin` throws for a name without a hook. */
  function NotFoundMessage(name: string): string {
    "Plugin could not be registered at '" + name + "'. Hook was not found.\n" +
    "BREAKING CHANGE: There need to exist a hook at 'this.hooks'. " +
    "To create a compatibility layer for this hook, hook into 'this._pluginCompat'."
  }

  /** The name argument of `plugin`: one name or an array of names. */
  datatype PluginName = Single(name: string) | Several(names: seq<string>)

  /** The registrations `plugin` made, and the message it threw, if any.
      Registrations made before a throw stay in place. */
  datatype PluginOutcome = PluginOutcome(tapped: seq<Tapped>, thrown: Option<string>)

  /** `name` or its camelCase form has a hook. */
  predicate HasHook(hooks: Hooks, name: string) {
    name in hooks || CamelCase(name) in hooks
  }

  /** The hook a single name's registration lands on. */
  function HookFor(hooks: Hooks, name: string): string {
    if name in hooks then name else CamelCase(name)
  }

  /** `plugin(name, fn)` for one name. */
  function PluginOne(hooks: Hooks, name: string, fn: Fn): (r: PluginOutcome)
    ensures r.thrown.None? <==> HasHook(hooks, name)
    ensures r.thrown.Some? ==> r.tapped == [] && r.thrown.value == NotFoundMessage(name)
    ensures r.thrown.None? ==> r.tapped == [TappedFor(hooks, name, fn)]
  {
    var call := PluginCompat(hooks, CompatOptions(name, fn, [name], None, false));
    SingleNameCall(hooks, name, fn);
    if call.value.Some? then PluginOutcome(call.tapped, None)
    else PluginOutcome([], Some(NotFoundMessage(name)))
  }

  /** The compat call `plugin` makes for one name finds the name's own hook,
      else its camelCase form's. */
  lemma SingleNameCall(hooks: Hooks, name: string, fn: Fn)
    ensures var call := PluginCompat(hooks, CompatOptions(name, fn, [name], None, false));
            && (call.value.Some? <==> HasHook(hooks, name))
            && (call.value.Some? ==> call.tapped == [TappedFor(hooks, name, fn)])
  {
    var candidates := SetAdd([name], CamelCase(name));
    assert candidates == if CamelCase(name) == name then [name] else [name, CamelCase(name)];
    if name in hooks {
      assert candidates[0] == name;
      assert FirstHook(candidates, hooks) == Some(name);
    } else if CamelCase(name) in hooks {
      assert candidates[|candidates| - 1] == CamelCase(name);
      assert FirstHook(candidates, hooks) == Some(CamelCase(name));
    } else {
      assert !Registrable(hooks, candidates);
    }
  }

  /** The registration `plugin` makes for `name` when a hook is found. */
  function TappedFor(hooks: Hooks, name: string, fn: Fn): Tapped {
    Tapped(HookFor(hooks, name), TapOptions(TapName(fn), 0), fn, false)
  }

  /** `tapped` are the registrations for the first names, in order. */
  ghost predicate TappedInOrder(tapped: seq<Tapped>, hooks: Hooks, names: seq<string>, fn: Fn) {
    |tapped| <= |names| && forall i :: 0 <= i < |tapped| ==> tapped[i] == TappedFor(hooks, names[i], fn)
  }

  lemma TappedInOrderCons(hooks: Hooks, names: seq<string>, fn: Fn, rest: seq<Tapped>)
    requires names != [] && TappedInOrder(rest, hooks, names[1..], fn)
    ensures TappedInOrder([TappedFor(hooks, names[0], fn)] + rest, hooks, names, fn)
  {
    var all := [TappedFor(hooks, names[0], fn)] + rest;
    forall i | 0 < i < |all|
      ensures all[i] == TappedFor(hooks, names[i], fn)
    {
      assert all[i] == rest[i - 1];
      assert names[1..][i - 1] == names[i];
    }
  }

  /** What `plugin` over an array of names leaves behind: it throws iff
      some name has no hook, and then for the first such name, after
      registering every name before it; each registration is that name's. */
  ghost predicate EachOutcome(r: PluginOutcome, hooks: Hooks, names: seq<string>, fn: Fn) {
    (r.thrown.None? <==> AllHooked(hooks, names)) &&
    (r.thrown.None? ==> |r.tapped| == |names|) &&
    (r.thrown.Some? ==>
       |r.tapped| < |names| && r.thrown.value == NotFoundMessage(names[|r.tapped|]) &&
       !HasHook(hooks, names[|r.tapped|]) &&
       forall i :: 0 <= i < |r.tapped| ==> HasHook(hooks, names[i])) &&
    TappedInOrder(r.tapped, hooks, names, fn)
  }

  /** Every name of `names` has a hook. */
  ghost predicate AllHooked(hooks: Hooks, names: seq<string>) {
    forall i :: 0 <= i < |names| ==> HasHook(hooks, names[i])
  }

  lemma AllHookedCons(hooks: Hooks, names: seq<string>)
    requires names != []
    ensures AllHooked(hooks, names) <==> HasHook(hooks, names[0]) && AllHooked(hooks, names[1..])
  {
    if HasHook(hooks, names[0]) && AllHooked(hooks, names[1..]) {
      forall i | 0 < i < |names|
        ensures HasHook(hooks, names[i])
      {
        assert names[i] == names[1..][i - 1];
      }
    }
  }

  /** Registering the first name and then the rest. */
  lemma EachOutcomeCons(hooks: Hooks, names: seq<string>, fn: Fn, rest: PluginOutcome)
    requires names != [] && HasHook(hooks, names[0])
    requires EachOutcome(rest, hooks, names[1..], fn)
    ensures EachOutcome(PluginOutcome([TappedFor(hooks, names[0], fn)] + rest.tapped, rest.thrown), hooks, names, fn)
  {
    var r := PluginOutcome([TappedFor(hooks, names[0], fn)] + rest.tapped, rest.thrown);
    var k := |rest.tapped|;
    AllHookedCons(hooks, names);
    assert r.thrown.None? <==> AllHooked(hooks, names);
    if r.thrown.Some? {
      assert names[k + 1] == names[1..][k];
      assert |r.tapped| == k + 1;
      forall i | 0 <= i < |r.tapped|
        ensures HasHook(hooks, names[i])
      {
        if i > 0 {
          assert names[i] == names[1..][i - 1];
        }
      }
    }
    TappedInOrderCons(hooks, names, fn, rest.tapped);
  }

  /** `plugin(names, fn)` over an array: each name in order, stopping at the
      first throw. */
  function PluginEach(hooks: Hooks, names: seq<string>, fn: Fn): (r: PluginOutcome)
    ensures EachOutcome(r, hooks, names, fn)
  {
    if names == [] then PluginOutcome([], None)
    else
      var first := PluginOne(hooks, names[0], fn);
      if first.thrown.Some? then first
      else
        var rest := PluginEach(hooks, names[1..], fn);
        EachOutcomeCons(hooks, names, fn, rest);
        PluginOutcome(first.tapped + rest.tapped, rest.thrown)
  }

  /** `plugin(name, fn)`: one name, or each name of an array. */
  function Plugin(hooks: Hooks, name: PluginName, fn: Fn): PluginOutcome {
    match name
    case Single(n) => PluginOne(hooks, n, fn)
    case Several(ns) => PluginEach(hooks, ns, fn)
  }

  /** `apply(...plugins)`: each plugin's `apply` runs on the instance, in
      argument order; a plugin is modelled by its effect on the state. */
  function ApplyAll<S, P>(s: S, plugins: seq<P>, apply: (P, S) -> S): S
    decreases |plugins|
  {
    if plugins == [] then s else ApplyAll(apply(plugins[0], s), plugins[1..], apply)
  }

  /** Applying two argument lists in a row is applying their concatenation:
      earlier arguments act first. */
  lemma {:induction false} ApplyAllConcat<S, P>(s: S, a: seq<P>, b: seq<P>, apply: (P, S) -> S)
    ensures ApplyAll(s, a + b, apply) == ApplyAll(ApplyAll(s, a, apply), b, apply)
    decreases |a|
  {
    if a != [] {
      assert (a + b)[0] == a[0];
      assert (a + b)[1..] == a[1..] + b;
      ApplyAllConcat(apply(a[0], s), a[1..], b, apply);
    } else {
      assert a + b == b;
    }
  }
}
