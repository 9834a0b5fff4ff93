/** `src/core/config.ts`: the `${NAME}` substitution, its recursive
    application to a parsed configuration tree, `validateConfig`, and the way
    `loadConfig` classifies what goes wrong. The environment is an explicit
    map and the YAML file arrives already parsed. */
module Config {
  import opened Wrappers
  import opened Text
  import opened Errors

  type Env = map<string, string>

  // ---------------------------------------------------------------------
  // replaceEnvVars

  /** `/\$\{([^}]+)\}/` matches at the start of `s` and its `}` is at `q`:
      "${", a non-empty name without '}', then the first '}'. */
  predicate IsPlaceholder(s: string, q: nat) {
    2 < q < |s| && s[0] == '$' && s[1] == '{' && s[q] == '}'
    && forall k :: 2 <= k < q ==> s[k] != '}'
  }

  /** Where the placeholder starting at the head of `s` closes, if one does. */
  function PlaceholderEnd(s: string): (r: Option<nat>)
    ensures r.Some? ==> IsPlaceholder(s, r.value)
    ensures r.None? ==> forall q :: !IsPlaceholder(s, q)
  {
    if 2 <= |s| && s[0] == '$' && s[1] == '{' then
      match FirstIndex(s[2..], '}')
      case Some(i) =>
        if i > 0 then Some(i + 2)
        else
          assert forall q :: IsPlaceholder(s, q) ==> s[2..][0] != '}';
          None
      case None =>
        assert forall q :: IsPlaceholder(s, q) ==> s[2..][q - 2] == '}';
        None
    else None
  }

  /** Some placeholder occurs somewhere in `s`. */
  ghost predicate HasPlaceholder(s: string) {
    exists p: nat, q: nat :: p < |s| && IsPlaceholder(s[p..], q)
  }

  /** The error the replacement callback throws for an unset variable. */
  function UndefinedVariable(name: string): (e: Error)
    ensures e.ConfigParse?
  {
    ConfigParse("Environment variable " + name + " is not defined")
  }

  /** `x` in front of a successful result; a failure passes through. */
  function Prefixed(x: string, r: Result<string, Error>): (p: Result<string, Error>)
    ensures p.Success? <==> r.Success?
    ensures p.Success? ==> p.value == x + r.value
    ensures p.Failure? ==> p == r
  {
    match r
    case Success(v) => Success(x + v)
    case Failure(e) => Failure(e)
  }

  /** `replaceEnvVars`: the global regex replace, scanning left to right.
      Each placeholder is replaced by the variable's value, which is not
      scanned again; the first unset variable aborts the whole replace. */
  function ReplaceEnvVars(s: string, env: Env): (r: Result<string, Error>)
    ensures r.Failure? ==> r.error.ConfigParse?
    ensures r.Failure? ==> exists name :: name !in env && r.error == UndefinedVariable(name)
    ensures (forall k :: 0 <= k < |s| ==> s[k] != '$') ==> r == Success(s)
    decreases |s|
  {
    if s == "" then Success("")
    else match PlaceholderEnd(s)
      case Some(q) =>
        var name := s[2..q];
        if name in env then Prefixed(env[name], ReplaceEnvVars(s[q + 1..], env))
        else Failure(UndefinedVariable(name))
      case None =>
        assert [s[0]] + s[1..] == s;
        Prefixed([s[0]], ReplaceEnvVars(s[1..], env))
  }

  /** A string without placeholders comes back unchanged, whatever the
      environment. */
  lemma {:induction false} NoPlaceholderUnchanged(s: string, env: Env)
    requires !HasPlaceholder(s)
    ensures ReplaceEnvVars(s, env) == Success(s)
    decreases |s|
  {
    if s != "" {
      assert s[0..] == s;
      assert PlaceholderEnd(s).None? by {
        forall q ensures !IsPlaceholder(s, q) {
          assert !IsPlaceholder(s[0..], q);
        }
      }
      forall p: nat, q: nat | p < |s[1..]| ensures !IsPlaceholder(s[1..][p..], q) {
        assert s[1..][p..] == s[p + 1..];
      }
      NoPlaceholderUnchanged(s[1..], env);
      assert [s[0]] + s[1..] == s;
    }
  }

  /** A string without '$' has no placeholder. */
  lemma NoDollarNoPlaceholder(s: string)
    requires forall k :: 0 <= k < |s| ==> s[k] != '$'
    ensures !HasPlaceholder(s)
  {
    forall p: nat, q: nat | p < |s| ensures !IsPlaceholder(s[p..], q) {
      assert s[p..][0] == s[p];
    }
  }

  // A template is the reference reading of a string with placeholders:
  // literal text and variable references in order.

  datatype Piece = Literal(text: string) | Ref(name: string)

  /** The string a template is written as. */
  function Written(t: seq<Piece>): string
    decreases |t|
  {
    if t == [] then ""
    else match t[0]
      case Literal(text) => text + Written(t[1..])
      case Ref(name) => "${" + name + "}" + Written(t[1..])
  }

  /** Literal text that cannot start a placeholder: no "${" inside it and no
      '$' at its end; a reference's name is non-empty and has no '}'. */
  predicate WellWritten(p: Piece) {
    match p
    case Literal(text) =>
      (forall k :: 0 <= k < |text| - 1 ==> !(text[k] == '$' && text[k + 1] == '{'))
      && (text == "" || text[|text| - 1] != '$')
    case Ref(name) => name != "" && forall k :: 0 <= k < |name| ==> name[k] != '}'
  }

  /** The template filled in from the environment, failing at the first
      reference to an unset variable. */
  function Render(t: seq<Piece>, env: Env): Result<string, Error>
    decreases |t|
  {
    if t == [] then Success("")
    else match t[0]
      case Literal(text) => Prefixed(text, Render(t[1..], env))
      case Ref(name) =>
        if name in env then Prefixed(env[name], Render(t[1..], env))
        else Failure(UndefinedVariable(name))
  }

  /** The names a template refers to, in order. */
  function Names(t: seq<Piece>): seq<string>
    decreases |t|
  {
    if t == [] then []
    else match t[0]
      case Literal(_) => Names(t[1..])
      case Ref(name) => [name] + Names(t[1..])
  }

  /** Rendering succeeds exactly when every referenced variable is set. */
  lemma {:induction false} RenderSucceeds(t: seq<Piece>, env: Env)
    ensures Render(t, env).Success? <==> forall n :: n in Names(t) ==> n in env
    decreases |t|
  {
    if t != [] {
      RenderSucceeds(t[1..], env);
      match t[0]
      case Literal(text) =>
        assert Names(t) == Names(t[1..]);
      case Ref(name) =>
        assert Names(t) == [name] + Names(t[1..]);
    }
  }

  /** A failed rendering names the first unset variable. */
  lemma {:induction false} RenderNamesFirstUnset(t: seq<Piece>, env: Env)
    requires Render(t, env).Failure?
    ensures exists i :: (0 <= i < |Names(t)| && Names(t)[i] !in env
      && Render(t, env) == Failure(UndefinedVariable(Names(t)[i]))
      && forall j :: 0 <= j < i ==> Names(t)[j] in env)
    decreases |t|
  {
    var ns := Names(t[1..]);
    var r := Render(t[1..], env);
    match t[0]
    case Literal(_) =>
      assert Names(t) == ns;
      RenderNamesFirstUnset(t[1..], env);
      var i :| 0 <= i < |ns| && ns[i] !in env && r == Failure(UndefinedVariable(ns[i]))
        && forall j :: 0 <= j < i ==> ns[j] in env;
      assert Render(t, env) == r;
    case Ref(name) =>
      assert Names(t) == [name] + ns;
      if name !in env {
        assert Names(t)[0] == name;
      } else {
        RenderNamesFirstUnset(t[1..], env);
        var i :| 0 <= i < |ns| && ns[i] !in env && r == Failure(UndefinedVariable(ns[i]))
          && forall j :: 0 <= j < i ==> ns[j] in env;
        assert Names(t)[i + 1] == ns[i];
        assert forall j :: 1 <= j < i + 1 ==> Names(t)[j] == ns[j - 1];
        assert Render(t, env) == r;
      }
  }

  /** A well-written literal cannot start a placeholder, whatever follows. */
  lemma LiteralHead(text: string, rest: string)
    requires WellWritten(Literal(text)) && text != ""
    ensures PlaceholderEnd(text + rest).None?
    ensures WellWritten(Literal(text[1..]))
    ensures (text + rest)[1..] == text[1..] + rest
  {
    var s := text + rest;
    if |text| == 1 {
      assert s[0] == text[0] != '$';
    } else {
      assert s[0] == text[0] && s[1] == text[1];
    }
    var tail := text[1..];
    forall k | 0 <= k < |tail| - 1 ensures !(tail[k] == '$' && tail[k + 1] == '{') {
      assert tail[k] == text[k + 1] && tail[k + 1] == text[k + 2];
    }
  }

  /** Where no placeholder starts, one character is copied. */
  lemma CopyStep(s: string, env: Env)
    requires s != "" && PlaceholderEnd(s).None?
    ensures ReplaceEnvVars(s, env) == Prefixed([s[0]], ReplaceEnvVars(s[1..], env))
  {
  }

  lemma PrefixedTwice(a: string, b: string, r: Result<string, Error>)
    ensures Prefixed(a, Prefixed(b, r)) == Prefixed(a + b, r)
  {
    if r.Success? {
      assert a + (b + r.value) == (a + b) + r.value;
    }
  }

  /** A literal piece is copied through character by character. */
  lemma {:induction false} LiteralCopied(text: string, rest: string, env: Env)
    requires WellWritten(Literal(text))
    ensures ReplaceEnvVars(text + rest, env) == Prefixed(text, ReplaceEnvVars(rest, env))
    decreases |text|
  {
    hide ReplaceEnvVars;
    var r := ReplaceEnvVars(rest, env);
    if text != "" {
      var s := text + rest;
      LiteralHead(text, rest);
      LiteralCopied(text[1..], rest, env);
      CopyStep(s, env);
      PrefixedTwice([s[0]], text[1..], r);
      assert [s[0]] + text[1..] == text;
    } else {
      assert text + rest == rest;
      if r.Success? {
        assert text + r.value == r.value;
      }
    }
  }

  /** A reference is replaced by its variable's value. */
  lemma ReferenceReplaced(name: string, rest: string, env: Env)
    requires WellWritten(Ref(name))
    ensures var s := "${" + name + "}" + rest;
      ReplaceEnvVars(s, env) ==
        if name in env then Prefixed(env[name], ReplaceEnvVars(rest, env))
        else Failure(UndefinedVariable(name))
  {
    var s := "${" + name + "}" + rest;
    var q := |name| + 2;
    assert s[q] == '}';
    assert forall k :: 2 <= k < q ==> s[k] == name[k - 2];
    assert IsPlaceholder(s, q);
    assert PlaceholderEnd(s) == Some(q);
    assert s[2..q] == name;
    assert s[q + 1..] == rest;
  }

  /** Replacing the written form of a well-written template is rendering it:
      text outside placeholders is kept, each placeholder becomes its
      variable's value, and the values are not rescanned. */
  lemma {:induction false} ReplaceIsRender(t: seq<Piece>, env: Env)
    requires forall i :: 0 <= i < |t| ==> WellWritten(t[i])
    ensures ReplaceEnvVars(Written(t), env) == Render(t, env)
    decreases |t|
  {
    if t != [] {
      ReplaceIsRender(t[1..], env);
      match t[0]
      case Literal(text) =>
        LiteralCopied(text, Written(t[1..]), env);
      case Ref(name) =>
        ReferenceReplaced(name, Written(t[1..]), env);
        assert Written(t) == "${" + name + "}" + Written(t[1..]);
    }
  }

  /** Replacement fails exactly when a referenced variable is unset. */
  lemma ReplaceFailsIffUnset(t: seq<Piece>, env: Env)
    requires forall i :: 0 <= i < |t| ==> WellWritten(t[i])
    ensures ReplaceEnvVars(Written(t), env).Failure? <==> exists n :: n in Names(t) && n !in env
  {
    ReplaceIsRender(t, env);
    RenderSucceeds(t, env);
  }

  /** A failed replacement names the first unset variable. */
  lemma ReplaceNamesFirstUnset(t: seq<Piece>, env: Env)
    requires forall i :: 0 <= i < |t| ==> WellWritten(t[i])
    requires ReplaceEnvVars(Written(t), env).Failure?
    ensures exists i :: (0 <= i < |Names(t)| && Names(t)[i] !in env
      && ReplaceEnvVars(Written(t), env) == Failure(UndefinedVariable(Names(t)[i]))
      && forall j :: 0 <= j < i ==> Names(t)[j] in env)
  {
    ReplaceIsRender(t, env);
    RenderNamesFirstUnset(t, env);
  }

  // ---------------------------------------------------------------------
  // replaceEnvVarsInConfig

  /** A parsed YAML value. Numbers are integers here; an object's fields are
      its own enumerable keys in enumeration order (integer-like keys first,
      as `for...in` visits them), each key once. */
  datatype Value =
    | Null
    | Bool(b: bool)
    | Num(n: int)
    | Str(s: string)
    | Arr(items: seq<Value>)
    | Obj(fields: seq<(string, Value)>)

  /** The number of children whose replacement is still to come. */
  function Width(v: Value): nat {
    match v
    case Arr(items) => |items|
    case Obj(fields) => |fields|
    case _ => 0
  }

  /** The tree `b` is `a` with every string leaf replaced: arrays keep their
      length, objects keep their keys in order, every other leaf is kept. */
  predicate Replaced(env: Env, a: Value, b: Value)
    decreases a
  {
    match a
    case Str(s) => b.Str? && ReplaceEnvVars(s, env) == Success(b.s)
    case Arr(items) =>
      b.Arr? && |b.items| == |items|
      && forall i :: 0 <= i < |items| ==> Replaced(env, items[i], b.items[i])
    case Obj(fields) =>
      b.Obj? && |b.fields| == |fields|
      && forall i :: 0 <= i < |fields| ==>
           b.fields[i].0 == fields[i].0 && Replaced(env, fields[i].1, b.fields[i].1)
    case _ => b == a
  }

  /** Every string leaf of `a` names only variables that are set. */
  predicate Resolvable(env: Env, a: Value)
    decreases a
  {
    match a
    case Str(s) => ReplaceEnvVars(s, env).Success?
    case Arr(items) => forall i :: 0 <= i < |items| ==> Resolvable(env, items[i])
    case Obj(fields) => forall i :: 0 <= i < |fields| ==> Resolvable(env, fields[i].1)
    case _ => true
  }

  /** `replaceEnvVarsInConfig`: strings are replaced, arrays and objects are
      rebuilt child by child in order, anything else is returned as it is.
      The first failing string aborts the whole walk. */
  function ReplaceEnvVarsInConfig(v: Value, env: Env): (r: Result<Value, Error>)
    ensures r.Success? <==> Resolvable(env, v)
    ensures r.Success? ==> Replaced(env, v, r.value)
    ensures r.Failure? ==> r.error.ConfigParse?
    decreases v, Width(v) + 1
  {
    match v
    case Str(s) =>
      (match ReplaceEnvVars(s, env)
       case Success(t) => Success(Str(t))
       case Failure(e) => Failure(e))
    case Arr(items) =>
      (match ReplaceItems(v, 0, env)
       case Success(xs) => Success(Arr(xs))
       case Failure(e) => Failure(e))
    case Obj(fields) =>
      (match ReplaceFields(v, 0, env)
       case Success(fs) => Success(Obj(fs))
       case Failure(e) => Failure(e))
    case _ => Success(v)
  }

  /** The `map` over the items of the array `v` from index `i` on. */
  function ReplaceItems(v: Value, i: nat, env: Env): (r: Result<seq<Value>, Error>)
    requires v.Arr? && i <= |v.items|
    ensures r.Success? <==> forall k :: i <= k < |v.items| ==> Resolvable(env, v.items[k])
    ensures r.Success? ==> |r.value| == |v.items| - i
    ensures r.Success? ==> forall k :: 0 <= k < |r.value| ==> Replaced(env, v.items[i + k], r.value[k])
    ensures r.Failure? ==> r.error.ConfigParse?
    decreases v, Width(v) - i
  {
    if i == |v.items| then Success([])
    else
      match ReplaceEnvVarsInConfig(v.items[i], env)
      case Failure(e) => Failure(e)
      case Success(x) =>
        match ReplaceItems(v, i + 1, env)
        case Failure(e) => Failure(e)
        case Success(xs) =>
          var r := [x] + xs;
          assert forall k :: 1 <= k < |r| ==> r[k] == xs[k - 1];
          Success(r)
  }

  /** The `for ... in` over the fields of the object `v` from index `i` on. */
  function ReplaceFields(v: Value, i: nat, env: Env): (r: Result<seq<(string, Value)>, Error>)
    requires v.Obj? && i <= |v.fields|
    ensures r.Success? <==> forall k :: i <= k < |v.fields| ==> Resolvable(env, v.fields[k].1)
    ensures r.Success? ==> |r.value| == |v.fields| - i
    ensures r.Success? ==> forall k :: 0 <= k < |r.value| ==>
      r.value[k].0 == v.fields[i + k].0 && Replaced(env, v.fields[i + k].1, r.value[k].1)
    ensures r.Failure? ==> r.error.ConfigParse?
    decreases v, Width(v) - i
  {
    if i == |v.fields| then Success([])
    else
      match ReplaceEnvVarsInConfig(v.fields[i].1, env)
      case Failure(e) => Failure(e)
      case Success(x) =>
        match ReplaceFields(v, i + 1, env)
        case Failure(e) => Failure(e)
        case Success(fs) =>
          var r := [(v.fields[i].0, x)] + fs;
          assert forall k :: 1 <= k < |r| ==> r[k] == fs[k - 1];
          Success(r)
  }

  /** Every string leaf is free of placeholders. */
  ghost predicate PlaceholderFree(a: Value)
    decreases a
  {
    match a
    case Str(s) => !HasPlaceholder(s)
    case Arr(items) => forall i :: 0 <= i < |items| ==> PlaceholderFree(items[i])
    case Obj(fields) => forall i :: 0 <= i < |fields| ==> PlaceholderFree(fields[i].1)
    case _ => true
  }

  /** Replacement relates a tree only to itself when no string has a
      placeholder. */
  lemma {:induction false} ReplacedWithoutPlaceholders(env: Env, a: Value, b: Value)
    requires PlaceholderFree(a) && Replaced(env, a, b)
    ensures b == a
    decreases a
  {
    match a
    case Str(s) =>
      NoPlaceholderUnchanged(s, env);
    case Arr(items) =>
      forall i | 0 <= i < |items| ensures b.items[i] == items[i] {
        ReplacedWithoutPlaceholders(env, items[i], b.items[i]);
      }
    case Obj(fields) =>
      forall i | 0 <= i < |fields| ensures b.fields[i] == fields[i] {
        ReplacedWithoutPlaceholders(env, fields[i].1, b.fields[i].1);
      }
    case _ =>
  }

  /** A tree without placeholders is resolvable in any environment. */
  lemma {:induction false} PlaceholderFreeResolvable(env: Env, a: Value)
    requires PlaceholderFree(a)
    ensures Resolvable(env, a)
    decreases a
  {
    match a
    case Str(s) =>
      NoPlaceholderUnchanged(s, env);
    case Arr(items) =>
      forall i | 0 <= i < |items| ensures Resolvable(env, items[i]) {
        PlaceholderFreeResolvable(env, items[i]);
      }
    case Obj(fields) =>
      forall i | 0 <= i < |fields| ensures Resolvable(env, fields[i].1) {
        PlaceholderFreeResolvable(env, fields[i].1);
      }
    case _ =>
  }

  /** A configuration without placeholders comes back unchanged. */
  lemma NoPlaceholderConfigUnchanged(v: Value, env: Env)
    requires PlaceholderFree(v)
    ensures ReplaceEnvVarsInConfig(v, env) == Success(v)
  {
    PlaceholderFreeResolvable(env, v);
    ReplacedWithoutPlaceholders(env, v, ReplaceEnvVarsInConfig(v, env).value);
  }

  // ---------------------------------------------------------------------
  // validateConfig

  const SupportedVersions: seq<string> := ["1.0"]

  /** `obj[key]` for an own field of an object; `undefined` otherwise
      (strings, numbers, booleans and arrays have none of the keys read). */
  function Prop(v: Value, key: string): Option<Value> {
    if v.Obj? then FieldValue(v.fields, key) else None
  }

  /** The value of the field named `key`, if there is one. */
  function FieldValue(fields: seq<(string, Value)>, key: string): Option<Value> {
    if fields == [] then None
    else if fields[0].0 == key then Some(fields[0].1)
    else FieldValue(fields[1..], key)
  }

  /** JavaScript truthiness of a property read: `undefined`, `null`, `false`,
      `0` and `""` are falsy; arrays and objects are truthy. */
  predicate IsTruthy(o: Option<Value>) {
    match o
    case None => false
    case Some(v) =>
      match v
      case Null => false
      case Bool(b) => b
      case Num(n) => n != 0
      case Str(s) => s != ""
      case _ => true
  }

  /** `typeof x === 'boolean'`. */
  predicate IsBoolean(o: Option<Value>) {
    o.Some? && o.value.Bool?
  }

  /** `String(v)`, as a template literal prints it. */
  function Display(v: Value): string
    decreases v
  {
    match v
    case Null => "null"
    case Bool(b) => if b then "true" else "false"
    case Num(n) => IntToString(n)
    case Str(s) => s
    case Arr(items) =>
      Join(seq(|items|, i requires 0 <= i < |items| => if items[i].Null? then "" else Display(items[i])), ",")
    case Obj(_) => "[object Object]"
  }

  /** The `TypeError` reading a property of `null` raises. */
  function NullRead(key: string): Error {
    Plain("Cannot read properties of null (reading '" + key + "')")
  }

  /** What every configured target must have. */
  predicate TargetOk(t: Value) {
    && !t.Null?
    && IsTruthy(Prop(t, "name"))
    && IsTruthy(Prop(t, "type"))
    && IsBoolean(Prop(t, "enabled"))
    && IsTruthy(Prop(t, "config"))
  }

  /** What `validateConfig` accepts, stated without its order: version the
      string "1.0", a source with a type, and a non-empty array of targets
      each of which is well formed. */
  predicate ConfigOk(c: Value) {
    && !c.Null?
    && Prop(c, "version") == Some(Str("1.0"))
    && IsTruthy(Prop(c, "source"))
    && IsTruthy(Prop(Prop(c, "source").value, "type"))
    && Prop(c, "targets").Some? && Prop(c, "targets").value.Arr?
    && |Prop(c, "targets").value.items| > 0
    && forall i :: 0 <= i < |Prop(c, "targets").value.items| ==> TargetOk(Prop(c, "targets").value.items[i])
  }

  /** The error for the first failing check on target `index`. */
  function TargetProblem(index: nat, t: Value): Error {
    var head := "Target " + NatToString(index) + ": ";
    if t.Null? then NullRead("name")
    else if !IsTruthy(Prop(t, "name")) then ConfigParse(head + "missing required field 'name'")
    else if !IsTruthy(Prop(t, "type")) then ConfigParse(head + "missing required field 'type'")
    else if !IsBoolean(Prop(t, "enabled")) then ConfigParse(head + "'enabled' must be a boolean")
    else ConfigParse(head + "missing required field 'config'")
  }

  /** The first target at or after `i` that is not well formed. */
  function FirstBadTarget(targets: seq<Value>, i: nat): (r: Option<nat>)
    requires i <= |targets|
    ensures r.Some? ==> i <= r.value < |targets| && !TargetOk(targets[r.value])
    ensures r.Some? ==> forall k :: i <= k < r.value ==> TargetOk(targets[k])
    ensures r.None? ==> forall k :: i <= k < |targets| ==> TargetOk(targets[k])
    decreases |targets| - i
  {
    if i == |targets| then None
    else if !TargetOk(targets[i]) then Some(i)
    else FirstBadTarget(targets, i + 1)
  }

  /** `validateConfig`: version, source, targets, then each target by index;
      the first failing check throws. */
  function ValidateConfig(c: Value): (r: Outcome<Error>)
    ensures r.Pass? <==> ConfigOk(c)
    ensures r.Fail? ==> r.error.ConfigParse? || r.error.Plain?
  {
    if c.Null? then Fail(NullRead("version"))
    else
      var version := Prop(c, "version");
      var source := Prop(c, "source");
      var targets := Prop(c, "targets");
      if !IsTruthy(version) then Fail(ConfigParse("Missing required field: version"))
      else if !(version.value.Str? && version.value.s in SupportedVersions) then
        Fail(ConfigParse("Unsupported version: " + Display(version.value)
                         + ". Supported versions: " + Join(SupportedVersions, ", ")))
      else if !IsTruthy(source) then Fail(ConfigParse("Missing required field: source"))
      else if !IsTruthy(Prop(source.value, "type")) then Fail(ConfigParse("Missing required field: source.type"))
      else if !IsTruthy(targets) || !targets.value.Arr? then
        Fail(ConfigParse("Missing or invalid field: targets (must be an array)"))
      else if |targets.value.items| == 0 then Fail(ConfigParse("At least one target must be configured"))
      else
        match FirstBadTarget(targets.value.items, 0)
        case Some(i) => Fail(TargetProblem(i, targets.value.items[i]))
        case None => Pass
  }

  /** A configuration whose version, source and target list are fine is
      rejected for its first bad target, with that target's index. */
  lemma FirstBadTargetReported(c: Value, i: nat)
    requires !c.Null? && Prop(c, "version") == Some(Str("1.0"))
    requires IsTruthy(Prop(c, "source")) && IsTruthy(Prop(Prop(c, "source").value, "type"))
    requires Prop(c, "targets").Some? && Prop(c, "targets").value.Arr?
    requires i < |Prop(c, "targets").value.items| && !TargetOk(Prop(c, "targets").value.items[i])
    requires forall k :: 0 <= k < i ==> TargetOk(Prop(c, "targets").value.items[k])
    ensures ValidateConfig(c) == Fail(TargetProblem(i, Prop(c, "targets").value.items[i]))
  {
    hide TargetOk, TargetProblem;
    var items := Prop(c, "targets").value.items;
    assert FirstBadTarget(items, 0) == Some(i);
  }

  /** The version is checked before anything else: a missing one is
      reported whatever the rest of the configuration holds. */
  lemma MissingVersionFirst(c: Value)
    requires !c.Null? && !IsTruthy(Prop(c, "version"))
    ensures ValidateConfig(c) == Fail(ConfigParse("Missing required field: version"))
  {
  }

  /** An unquoted `1.0` in YAML is the number 1, which is not a supported
      version: the check compares with the string "1.0". */
  lemma NumericVersionRejected(c: Value, n: int)
    requires !c.Null? && Prop(c, "version") == Some(Num(n))
    ensures ValidateConfig(c).Fail? && ValidateConfig(c).error.ConfigParse?
  {
  }

  /** The configuration the tests accept, and the same with no targets. */
  function ExampleConfig(targets: seq<Value>): Value {
    Obj([("version", Str("1.0")), ("source", Obj([("type", Str("kiro"))])), ("targets", Arr(targets))])
  }

  const ExampleTarget: Value :=
    Obj([("name", Str("test")), ("type", Str("github")), ("enabled", Bool(true)), ("config", Obj([]))])

  lemma ExampleProps(targets: seq<Value>)
    ensures Prop(ExampleConfig(targets), "version") == Some(Str("1.0"))
    ensures Prop(ExampleConfig(targets), "source") == Some(Obj([("type", Str("kiro"))]))
    ensures Prop(Obj([("type", Str("kiro"))]), "type") == Some(Str("kiro"))
    ensures Prop(ExampleConfig(targets), "targets") == Some(Arr(targets))
  {
    var fields := ExampleConfig(targets).fields;
    assert "source" != "version" && "targets" != "version" && "targets" != "source" by {
      assert |"source"| != |"version"| && |"source"| != |"targets"|;
      assert "targets"[0] != "version"[0];
    }
    assert fields[1..][0] == ("source", Obj([("type", Str("kiro"))]));
    assert FieldValue(fields, "source") == FieldValue(fields[1..], "source");
    assert FieldValue(fields[1..], "targets") == FieldValue(fields[2..], "targets");
  }

  lemma ValidateConfigAccepts()
    ensures ValidateConfig(ExampleConfig([ExampleTarget])) == Pass
  {
    ExampleProps([ExampleTarget]);
    assert TargetOk(ExampleTarget);
  }

  lemma ValidateConfigNoTargets()
    ensures ValidateConfig(ExampleConfig([])) == Fail(ConfigParse("At least one target must be configured"))
  {
    ExampleProps([]);
  }

  // ---------------------------------------------------------------------
  // loadConfig

  const DefaultConfigFile := ".specbridge.yaml"

  /** `configPath || path.join(process.cwd(), DEFAULT_CONFIG_FILE)`. */
  function ConfigFilePath(configPath: Option<string>, cwd: string): (path: string)
    ensures Truthy(configPath) ==> path == configPath.value
    ensures !Truthy(configPath) ==> EndsWith(path, "/" + DefaultConfigFile)
  {
    if Truthy(configPath) then configPath.value else cwd + "/" + DefaultConfigFile
  }

  /** The error `readYaml` throws when the file cannot be read or parsed. */
  function YamlError(path: string, message: string): Error {
    Plain("Failed to parse YAML file " + path + ": " + message)
  }

  /** The `try` block of `loadConfig`: parse, substitute, validate. `yaml` is
      what reading and parsing the file yields. */
  function LoadSteps(path: string, yaml: Result<Value, string>, env: Env): (r: Result<Value, Error>)
    ensures r.Success? <==>
      (yaml.Success? && Resolvable(env, yaml.value) && ConfigOk(ReplaceEnvVarsInConfig(yaml.value, env).value))
    ensures r.Success? ==> Replaced(env, yaml.value, r.value) && ConfigOk(r.value)
  {
    match yaml
    case Failure(m) => Failure(YamlError(path, m))
    case Success(tree) =>
      match ReplaceEnvVarsInConfig(tree, env)
      case Failure(e) => Failure(e)
      case Success(config) =>
        match ValidateConfig(config)
        case Fail(e) => Failure(e)
        case Pass => Success(config)
  }

  /** `loadConfig` as written: every error from the `try` block other than
      `ConfigNotFoundError` is wrapped in a new `ConfigParseError` built from
      its message, including errors that already are `ConfigParseError`. */
  function LoadConfigAsWritten(configPath: Option<string>, cwd: string, fileExists: bool,
                               yaml: Result<Value, string>, env: Env): (r: Result<Value, Error>)
    ensures !fileExists ==> r == Failure(ConfigNotFound(ConfigFilePath(configPath, cwd)))
    ensures fileExists && r.Failure? ==> r.error.ConfigParse?
    ensures r.Success? <==> fileExists && LoadSteps(ConfigFilePath(configPath, cwd), yaml, env).Success?
  {
    var path := ConfigFilePath(configPath, cwd);
    if !fileExists then Failure(ConfigNotFound(path))
    else
      match LoadSteps(path, yaml, env)
      case Success(config) => Success(config)
      case Failure(e) => if e.ConfigNotFound? then Failure(e) else Failure(ConfigParse(e.Message()))
  }

  /** `loadConfig` with a `ConfigParseError` from substitution or validation
      rethrown as it is, the way `ConfigNotFoundError` already is; other
      errors are wrapped as before. */
  function LoadConfig(configPath: Option<string>, cwd: string, fileExists: bool,
                      yaml: Result<Value, string>, env: Env): (r: Result<Value, Error>)
    ensures !fileExists ==> r == Failure(ConfigNotFound(ConfigFilePath(configPath, cwd)))
    ensures fileExists && r.Failure? ==> r.error.ConfigParse?
    ensures r.Success? <==> fileExists && LoadSteps(ConfigFilePath(configPath, cwd), yaml, env).Success?
  {
    var path := ConfigFilePath(configPath, cwd);
    if !fileExists then Failure(ConfigNotFound(path))
    else
      match LoadSteps(path, yaml, env)
      case Success(config) => Success(config)
      case Failure(e) =>
        if e.ConfigNotFound? || e.ConfigParse? then Failure(e) else Failure(ConfigParse(e.Message()))
  }

  /** As written, a validation failure reaches the caller with the
      configuration prefix twice: "Failed to parse configuration: Failed to
      parse configuration: Missing required field: version". */
  lemma DoublePrefixAsWritten(configPath: Option<string>, cwd: string, tree: Value, env: Env, detail: string)
    requires Resolvable(env, tree)
    requires ValidateConfig(ReplaceEnvVarsInConfig(tree, env).value) == Fail(ConfigParse(detail))
    ensures var r := LoadConfigAsWritten(configPath, cwd, true, Success(tree), env);
      r.Failure? && r.error.Message() == ParsePrefix + ParsePrefix + detail
  {
  }

  /** Corrected, the caller sees the validation error itself, with the
      prefix once. */
  lemma SinglePrefix(configPath: Option<string>, cwd: string, tree: Value, env: Env, detail: string)
    requires Resolvable(env, tree)
    requires ValidateConfig(ReplaceEnvVarsInConfig(tree, env).value) == Fail(ConfigParse(detail))
    ensures var r := LoadConfig(configPath, cwd, true, Success(tree), env);
      r == Failure(ConfigParse(detail)) && r.error.Message() == ParsePrefix + detail
  {
  }

  /** As written, an unset variable is reported wrapped once more: the
      caller sees the substitution's message behind a second prefix. */
  lemma UnsetVariableDoublePrefixAsWritten(configPath: Option<string>, cwd: string, tree: Value, env: Env)
    requires !Resolvable(env, tree)
    ensures var e := ReplaceEnvVarsInConfig(tree, env).error;
      var r := LoadConfigAsWritten(configPath, cwd, true, Success(tree), env);
      && e.ConfigParse?
      && r == Failure(ConfigParse(e.Message()))
      && r.error.Message() == ParsePrefix + ParsePrefix + e.detail
  {
  }

  /** Corrected, an unset variable is reported as the substitution raised it. */
  lemma UnsetVariableReported(configPath: Option<string>, cwd: string, tree: Value, env: Env)
    requires !Resolvable(env, tree)
    ensures LoadConfig(configPath, cwd, true, Success(tree), env) == ReplaceEnvVarsInConfig(tree, env)
  {
  }

  /** A YAML failure is reported as a parse error carrying the file path. */
  lemma YamlFailureWrapped(configPath: Option<string>, cwd: string, message: string, env: Env)
    ensures var path := ConfigFilePath(configPath, cwd);
      LoadConfig(configPath, cwd, true, Failure(message), env)
        == Failure(ConfigParse("Failed to parse YAML file " + path + ": " + message))
  {
  }
}
