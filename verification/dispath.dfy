/**
 The whole run of the tool as one pure function: from the parsed arguments,
 the environment table and the pattern compiler to the lines it prints, or
 the error it stops with.
 */
module Dispath {
  import opened Errors
  import opened Environment
  import opened Sequences
  import opened Reader
  import opened Entries
  import opened Dedup

  /** The parsed command line. */
  datatype Args = Args(
    vars: seq<string>,  // positional variable names; empty means PATH
    regex: string,      // filter pattern, `.*` when not given
    unique: bool,       // print every entry at most once
    allVars: bool,      // enumerate the whole environment instead of `vars`
    sep: char,          // entry separator, ':' when not given
    failUnset: bool     // an absent named variable is an error
  )

  /** The arguments of a bare invocation. */
  const DefaultArgs := Args([], ".*", false, false, ':', false)

  /** The variable read when no name is given. */
  const DefaultVar := "PATH"

  /** A pattern compiler: `None` when the text is not a valid pattern,
      otherwise the "matches somewhere in the entry" test. */
  type Compiler = string -> Option<string -> bool>

  /** The names looked up in named mode. */
  function RequestedNames(args: Args): (r: seq<string>)
    ensures |args.vars| == 0 ==> r == [DefaultVar]
    ensures |args.vars| > 0 ==> r == args.vars
  {
    if |args.vars| == 0 then [DefaultVar] else args.vars
  }

  /** The variable values, read in the mode the arguments select. */
  function ReadValues(args: Args, env: Env): (r: Result<seq<string>>)
    ensures args.allVars ==> (r.Ok? <==> forall i :: 0 <= i < |env| ==> env[i].value.Decodable?)
    ensures args.allVars && r.Ok? ==> |r.value| == |env|
    ensures !args.allVars ==>
      (r.Ok? <==> forall i :: 0 <= i < |RequestedNames(args)| ==> !Rejects(env, RequestedNames(args)[i], args.failUnset))
    ensures !args.allVars && r.Ok? ==> r.value == PresentValues(env, RequestedNames(args))
    ensures r.Err? ==> !r.error.InvalidPattern?
    ensures r.Err? && args.allVars ==> r.error.UndecodableValue? || r.error.UnreadableKey?
  {
    if args.allVars then AllSetVariablesValues(env)
    else VariableValues(env, RequestedNames(args), args.failUnset)
  }

  /** The entries that pass the filter, before any deduplication. */
  function Matching(values: seq<string>, sep: char, isMatch: string -> bool): seq<string> {
    Filter(isMatch, FlatSplit(values, sep))
  }

  /** One run of the tool: compile the pattern, read the values, split them
      into entries, filter, and deduplicate when asked. */
  function Run(args: Args, env: Env, compile: Compiler): (r: Result<seq<string>>)
    ensures compile(args.regex).None? ==> r == Err(InvalidPattern)
    ensures r.Ok? <==> compile(args.regex).Some? && ReadValues(args, env).Ok?
    ensures r.Ok? ==> forall i :: 0 <= i < |r.value| ==> compile(args.regex).value(r.value[i])
    ensures r.Ok? ==> forall i :: 0 <= i < |r.value| ==> args.sep !in r.value[i]
    ensures r.Ok? && args.unique ==> NoDuplicates(r.value)
  {
    match compile(args.regex)
    case None => Err(InvalidPattern)
    case Some(isMatch) =>
      match ReadValues(args, env)
      case Err(e) => Err(e)
      case Ok(values) =>
        var entries := Matching(values, args.sep, isMatch);
        assert forall e :: e in entries ==> isMatch(e) && args.sep !in e;
        Ok(if args.unique then Unique(entries) else entries)
  }

  /** A read error aborts the run with that error and prints nothing. */
  lemma RunPropagatesReadError(args: Args, env: Env, compile: Compiler)
    requires compile(args.regex).Some?
    requires ReadValues(args, env).Err?
    ensures Run(args, env, compile) == Err(ReadValues(args, env).error)
  {
  }

  /** An invalid pattern is reported whatever the environment holds: it is
      detected before any variable is looked up. */
  lemma InvalidPatternIgnoresEnvironment(args: Args, env1: Env, env2: Env, compile: Compiler)
    requires compile(args.regex).None?
    ensures Run(args, env1, compile) == Run(args, env2, compile)
  {
  }

  /** Without `unique`, the output is exactly the matching entries, in
      variable order and, within a value, in left-to-right order; there are
      as many lines as matching entry positions. */
  lemma PlainOutput(args: Args, env: Env, compile: Compiler)
    requires !args.unique
    ensures Run(args, env, compile).Ok? ==>
            var entries := FlatSplit(ReadValues(args, env).value, args.sep);
            var isMatch := compile(args.regex).value;
            && Run(args, env, compile).value == Filter(isMatch, entries)
            && IsSubsequence(Run(args, env, compile).value, entries)
            && |Run(args, env, compile).value| == |MatchingPositions(isMatch, entries)|
  {
    if Run(args, env, compile).Ok? {
      var entries := FlatSplit(ReadValues(args, env).value, args.sep);
      var isMatch := compile(args.regex).value;
      FilterIsSubsequence(isMatch, entries);
      FilterLength(isMatch, entries);
    }
  }

  /** With `unique`, the output holds every string of the plain output once,
      in the order of first occurrence, and nothing else. */
  lemma UniqueOutput(args: Args, env: Env, compile: Compiler)
    requires args.unique
    ensures Run(args, env, compile).Ok? ==>
            var plain := Run(args.(unique := false), env, compile).value;
            && Run(args.(unique := false), env, compile).Ok?
            && Run(args, env, compile).value == FirstOccurrences(plain)
            && NoDuplicates(Run(args, env, compile).value)
            && Elements(Run(args, env, compile).value) == Elements(plain)
            && IsSubsequence(Run(args, env, compile).value, plain)
  {
    if Run(args, env, compile).Ok? {
      var plain := Run(args.(unique := false), env, compile).value;
      UniqueIsFirstOccurrences(plain);
    }
  }

  /** Asking for no variable is asking for PATH. */
  lemma NoNamesMeansPath(args: Args, env: Env, compile: Compiler)
    requires args.vars == []
    ensures Run(args, env, compile) == Run(args.(vars := [DefaultVar]), env, compile)
  {
  }

  /** In all-variables mode the requested names and `failUnset` play no part. */
  lemma AllVarsIgnoresNames(args: Args, env: Env, compile: Compiler, vars: seq<string>, failUnset: bool)
    requires args.allVars
    ensures Run(args, env, compile) == Run(args.(vars := vars, failUnset := failUnset), env, compile)
  {
  }

  /** In all-variables mode the run fails on a readable pattern exactly when
      some variable's value does not decode, with or without `unique`;
      otherwise every variable contributes the entries of its value, in
      enumeration order, deduplicated when asked. */
  lemma AllVarsOutput(args: Args, env: Env, compile: Compiler, values: seq<string>)
    requires args.allVars
    requires compile(args.regex).Some?
    ensures Run(args, env, compile).Ok? <==> forall i :: 0 <= i < |env| ==> env[i].value.Decodable?
    ensures |values| == |env| && (forall i :: 0 <= i < |env| ==> env[i].value == Decodable(values[i])) ==>
      var entries := Filter(compile(args.regex).value, FlatSplit(values, args.sep));
      Run(args, env, compile) == Ok(if args.unique then Unique(entries) else entries)
  {
    if |values| == |env| && (forall i :: 0 <= i < |env| ==> env[i].value == Decodable(values[i])) {
      var read := AllSetVariablesValues(env);
      assert read.Ok?;
      assert read.value == values;
    }
  }
}
