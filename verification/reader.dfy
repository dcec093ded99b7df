/**
 Reading the values of environment variables, in the two modes of the tool:
 named mode looks up a list of requested names, all-variables mode
 enumerates the whole environment table. Both stop at the first failure and
 then return no values at all.
 */
module Reader {
  import opened Errors
  import opened Environment
  import opened Sequences

  // ---------------------------------------------------------------------
  // Named mode
  // ---------------------------------------------------------------------

  /** Whether requesting `name` aborts the read: an undecodable value always
      does, an absent variable only when `failUnset` is on. */
  predicate Rejects(env: Env, name: string, failUnset: bool) {
    match Var(env, name)
    case Present(_) => false
    case NotPresent => failUnset
    case NotUnicode => true
  }

  /** The error reported for a rejected name. */
  function Rejection(env: Env, name: string, failUnset: bool): Error
    requires Rejects(env, name, failUnset)
  {
    if Var(env, name).NotPresent? then UnsetVariable(name) else UndecodableValue(name)
  }

  /** `names[k]` is the first requested name that is rejected. */
  predicate FirstRejected(env: Env, names: seq<string>, failUnset: bool, k: int) {
    && 0 <= k < |names|
    && Rejects(env, names[k], failUnset)
    && forall j :: 0 <= j < k ==> !Rejects(env, names[j], failUnset)
  }

  /** The variable is set and its value decodes. */
  predicate IsPresent(env: Env, name: string) {
    Var(env, name).Present?
  }

  /** The decoded value of a present variable (empty text otherwise). */
  function TextOf(env: Env, name: string): string {
    match Var(env, name)
    case Present(text) => text
    case _ => ""
  }

  /** Reference for a successful named read: keep the present names, then
      take their values, in request order. */
  function PresentValues(env: Env, names: seq<string>): seq<string> {
    Map(n => TextOf(env, n), Filter(n => IsPresent(env, n), names))
  }

  /** One step of the reference: the first name contributes its value when
      it is present, and nothing otherwise. */
  lemma PresentValuesUnfold(env: Env, names: seq<string>)
    requires |names| > 0
    ensures PresentValues(env, names)
         == (if IsPresent(env, names[0]) then [TextOf(env, names[0])] else [])
            + PresentValues(env, names[1..])
  {
    MapFilterCons(n => TextOf(env, n), n => IsPresent(env, n), names);
  }

  /** The values of the requested variables, as `variable_values` collects
      them: present values are appended in request order, absent ones are
      skipped (or abort when `failUnset` is on), and an undecodable value
      aborts. */
  function VariableValues(env: Env, names: seq<string>, failUnset: bool): (r: Result<seq<string>>)
    ensures r.Ok? <==> forall i :: 0 <= i < |names| ==> !Rejects(env, names[i], failUnset)
    ensures r.Ok? ==> r.value == PresentValues(env, names)
    ensures r.Err? ==> r.error.UnsetVariable? || r.error.UndecodableValue?
    decreases |names|
  {
    if |names| == 0 then Ok([])
    else
      var name := names[0];
      assert forall i :: 1 <= i < |names| ==> names[i] == names[1..][i - 1];
      PresentValuesUnfold(env, names);
      match Var(env, name)
      case Present(text) =>
        var rest := VariableValues(env, names[1..], failUnset);
        if rest.Err? then rest else Ok([text] + rest.value)
      case NotPresent =>
        if failUnset then Err(UnsetVariable(name))
        else VariableValues(env, names[1..], failUnset)
      case NotUnicode => Err(UndecodableValue(name))
  }

  /** A failed named read reports the first rejected name, in request order. */
  lemma {:induction false} VariableValuesFailsFirst(env: Env, names: seq<string>, failUnset: bool)
    ensures VariableValues(env, names, failUnset).Err? ==>
      exists k :: FirstRejected(env, names, failUnset, k)
               && VariableValues(env, names, failUnset).error == Rejection(env, names[k], failUnset)
    decreases |names|
  {
    var r := VariableValues(env, names, failUnset);
    if |names| > 0 && r.Err? {
      if Rejects(env, names[0], failUnset) {
        assert FirstRejected(env, names, failUnset, 0);
      } else {
        assert r == VariableValues(env, names[1..], failUnset);
        VariableValuesFailsFirst(env, names[1..], failUnset);
        var k :| FirstRejected(env, names[1..], failUnset, k)
              && r.error == Rejection(env, names[1..][k], failUnset);
        assert names[1..][k] == names[k + 1];
        forall j | 0 <= j < k + 1 ensures !Rejects(env, names[j], failUnset) {
          if j > 0 {
            assert names[j] == names[1..][j - 1];
          }
        }
        assert FirstRejected(env, names, failUnset, k + 1);
      }
    }
  }

  /** Runs two reads one after the other: the first failure wins, and two
      successes concatenate their values. */
  function AndThen(first: Result<seq<string>>, second: Result<seq<string>>): Result<seq<string>> {
    match first
    case Err(e) => Err(e)
    case Ok(v1) =>
      match second
      case Err(e) => Err(e)
      case Ok(v2) => Ok(v1 + v2)
  }

  /** What a single requested name contributes to the read. */
  function ReadOne(env: Env, name: string, failUnset: bool): Result<seq<string>> {
    match Var(env, name)
    case Present(text) => Ok([text])
    case NotPresent => if failUnset then Err(UnsetVariable(name)) else Ok([])
    case NotUnicode => Err(UndecodableValue(name))
  }

  /** Sequencing reads is associative. */
  lemma AndThenAssoc(r1: Result<seq<string>>, r2: Result<seq<string>>, r3: Result<seq<string>>)
    ensures AndThen(AndThen(r1, r2), r3) == AndThen(r1, AndThen(r2, r3))
  {
    if r1.Ok? && r2.Ok? && r3.Ok? {
      assert (r1.value + r2.value) + r3.value == r1.value + (r2.value + r3.value);
    }
  }

  /** The read handles the first name, then the rest. */
  lemma VariableValuesStep(env: Env, names: seq<string>, failUnset: bool)
    requires |names| > 0
    ensures VariableValues(env, names, failUnset)
         == AndThen(ReadOne(env, names[0], failUnset), VariableValues(env, names[1..], failUnset))
  {
    var rest := VariableValues(env, names[1..], failUnset);
    if rest.Ok? {
      assert [] + rest.value == rest.value;
    }
  }

  /** Request order is respected across a split of the name list: reading
      `a + b` is reading `a`, then reading `b`. */
  lemma {:induction false} VariableValuesAppend(env: Env, a: seq<string>, b: seq<string>, failUnset: bool)
    ensures VariableValues(env, a + b, failUnset)
         == AndThen(VariableValues(env, a, failUnset), VariableValues(env, b, failUnset))
    decreases |a|
  {
    if |a| == 0 {
      assert a + b == b;
      var rb := VariableValues(env, b, failUnset);
      if rb.Ok? {
        assert [] + rb.value == rb.value;
      }
    } else {
      var ab := a + b;
      assert ab[0] == a[0];
      assert ab[1..] == a[1..] + b;
      var head := ReadOne(env, a[0], failUnset);
      VariableValuesStep(env, ab, failUnset);
      VariableValuesStep(env, a, failUnset);
      VariableValuesAppend(env, a[1..], b, failUnset);
      AndThenAssoc(head, VariableValues(env, a[1..], failUnset), VariableValues(env, b, failUnset));
    }
  }

  /** An unset name in a lenient read contributes nothing, not even an
      empty value: the read is as if it had not been requested. */
  lemma AbsentNameContributesNothing(env: Env, before: seq<string>, name: string, after: seq<string>)
    requires Var(env, name).NotPresent?
    ensures VariableValues(env, before + [name] + after, false)
         == VariableValues(env, before + after, false)
  {
    var tail := [name] + after;
    assert VariableValues(env, tail, false) == VariableValues(env, after, false) by {
      assert tail[0] == name && tail[1..] == after;
      VariableValuesStep(env, tail, false);
      var rest := VariableValues(env, after, false);
      if rest.Ok? {
        assert [] + rest.value == rest.value;
      }
    }
    assert before + [name] + after == before + tail;
    VariableValuesAppend(env, before, tail, false);
    VariableValuesAppend(env, before, after, false);
  }

  /** A strict read that succeeds returns exactly one value per requested
      name: the decoded value of that name. */
  lemma {:induction false} StrictReadIsComplete(env: Env, names: seq<string>)
    requires VariableValues(env, names, true).Ok?
    ensures |VariableValues(env, names, true).value| == |names|
    ensures forall i :: 0 <= i < |names| ==>
      Var(env, names[i]) == Present(VariableValues(env, names, true).value[i])
    decreases |names|
  {
    if |names| > 0 {
      var rest := VariableValues(env, names[1..], true);
      var v := VariableValues(env, names, true).value;
      assert !Rejects(env, names[0], true);
      VariableValuesStep(env, names, true);
      assert rest.Ok? && v == [Var(env, names[0]).text] + rest.value;
      StrictReadIsComplete(env, names[1..]);
      forall i | 0 < i < |names| ensures Var(env, names[i]) == Present(v[i]) {
        assert names[i] == names[1..][i - 1];
        assert v[i] == rest.value[i - 1];
      }
    }
  }

  /** `failUnset` only ever turns a success into a failure: when the strict
      read succeeds, the lenient read returns the same values. */
  lemma {:induction false} StrictAgreesWithLenient(env: Env, names: seq<string>)
    requires VariableValues(env, names, true).Ok?
    ensures VariableValues(env, names, false) == VariableValues(env, names, true)
    decreases |names|
  {
    if |names| > 0 {
      assert Var(env, names[0]).Present?;
      StrictAgreesWithLenient(env, names[1..]);
    }
  }

  // ---------------------------------------------------------------------
  // All-variables mode
  // ---------------------------------------------------------------------

  /** The error reported for an undecodable value stored under `key`: it
      names the variable when the key itself decodes. */
  function UndecodableEntry(key: OsString): Error {
    match key
    case Decodable(name) => UndecodableValue(name)
    case Undecodable => UnreadableKey
  }

  /** The value of every variable in enumeration order, as
      `all_set_variables_values` collects them; the first undecodable value
      aborts the read. */
  function AllSetVariablesValues(env: Env): (r: Result<seq<string>>)
    ensures r.Ok? <==> forall i :: 0 <= i < |env| ==> env[i].value.Decodable?
    ensures r.Ok? ==> |r.value| == |env|
    ensures r.Ok? ==> forall i :: 0 <= i < |env| ==> env[i].value == Decodable(r.value[i])
    ensures r.Err? ==> r.error.UndecodableValue? || r.error.UnreadableKey?
    decreases |env|
  {
    if |env| == 0 then Ok([])
    else
      assert forall i :: 1 <= i < |env| ==> env[i] == env[1..][i - 1];
      match env[0].value
      case Decodable(text) =>
        var rest := AllSetVariablesValues(env[1..]);
        if rest.Err? then rest else Ok([text] + rest.value)
      case Undecodable => Err(UndecodableEntry(env[0].key))
  }

  /** A failed enumeration reports the first variable, in enumeration order,
      whose value does not decode. */
  lemma {:induction false} AllSetVariablesValuesFailsFirst(env: Env)
    ensures AllSetVariablesValues(env).Err? ==>
      exists k :: 0 <= k < |env| && env[k].value == Undecodable
               && (forall j :: 0 <= j < k ==> env[j].value.Decodable?)
               && AllSetVariablesValues(env).error == UndecodableEntry(env[k].key)
    decreases |env|
  {
    var r := AllSetVariablesValues(env);
    if |env| > 0 && r.Err? && env[0].value.Decodable? {
      var tail := env[1..];
      assert r == AllSetVariablesValues(tail);
      AllSetVariablesValuesFailsFirst(tail);
      var k :| 0 <= k < |tail| && tail[k].value == Undecodable
             && (forall j :: 0 <= j < k ==> tail[j].value.Decodable?)
             && r.error == UndecodableEntry(tail[k].key);
      assert tail[k] == env[k + 1];
      forall j | 0 <= j < k + 1 ensures env[j].value.Decodable? {
        if j > 0 {
          assert env[j] == tail[j - 1];
        }
      }
    } else if |env| > 0 && r.Err? {
      assert env[0].value == Undecodable;
    }
  }
}
