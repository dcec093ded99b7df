/**
 Worked runs of the tool on small environments: the default invocation, a
 separator override, a filter, and an unset variable with and without
 `failUnset`. The pattern engine is opaque, so each example states what the
 compiled pattern answers on the entries involved.
 */
module ExampleRuns {
  import opened Errors
  import opened Environment
  import opened Sequences
  import opened Reader
  import opened Entries
  import opened Dispath

  /** An environment holding PATH and nothing else. */
  function PathOnly(value: string): Env {
    [EnvVar(Decodable("PATH"), Decodable(value))]
  }

  /** Splitting a value made of two separator-free entries. */
  lemma SplitTwo(a: string, b: string, sep: char)
    requires sep !in a && sep !in b
    ensures Split(a + [sep] + b, sep) == [a, b]
  {
    var parts := [a, b];
    assert parts[1..] == [b];
    assert Join(parts, sep) == a + [sep] + b;
    SplitJoin(parts, sep);
  }

  /** Reading PATH by default from an environment that only holds PATH. */
  lemma ReadPathOnly(args: Args, value: string)
    requires !args.allVars && args.vars == []
    ensures ReadValues(args, PathOnly(value)) == Ok([value])
  {
    var env := PathOnly(value);
    assert KeyAt(env, 0, "PATH");
    assert Var(env, "PATH") == Present(value);
    assert RequestedNames(args) == ["PATH"];
    VariableValuesStep(env, ["PATH"], args.failUnset);
    assert ["PATH"][1..] == [];
    assert [value] + [] == [value];
  }

  /** The entries of a single value made of two separator-free parts. */
  lemma EntriesOfTwo(a: string, b: string, sep: char)
    requires sep !in a && sep !in b
    ensures FlatSplit([a + [sep] + b], sep) == [a, b]
  {
    SplitTwo(a, b, sep);
    var values := [a + [sep] + b];
    assert values[1..] == [];
    assert FlatSplit(values, sep) == Split(a + [sep] + b, sep) + [];
  }

  /** The run of a named-mode read of PATH that holds `a` and `b`, before
      the filter decides which entries to keep. */
  lemma RunOnTwo(args: Args, a: string, b: string, compile: Compiler)
    requires !args.allVars && args.vars == [] && !args.unique
    requires args.sep !in a && args.sep !in b
    requires compile(args.regex).Some?
    ensures Run(args, PathOnly(a + [args.sep] + b), compile)
         == Ok(Filter(compile(args.regex).value, [a, b]))
  {
    ReadPathOnly(args, a + [args.sep] + b);
    EntriesOfTwo(a, b, args.sep);
  }

  /** Filtering two entries. */
  lemma FilterTwo(m: string -> bool, a: string, b: string)
    ensures Filter(m, [a, b])
         == (if m(a) then [a] else []) + (if m(b) then [b] else [])
  {
    assert [a, b][1..] == [b];
    assert [b][1..] == [];
  }

  /** The entries and values the examples below use. */
  const UsrBin := "/usr/bin"
  const Bin := "/bin"
  const OptFoo := "/opt/foo"
  const A := "/a"
  const B := "/b"

  /** With no argument and `PATH=/usr/bin:/bin`, the tool prints `/usr/bin`
      then `/bin`. */
  lemma DefaultInvocation(compile: Compiler)
    requires compile(".*").Some?
    requires compile(".*").value(UsrBin) && compile(".*").value(Bin)
    ensures Run(DefaultArgs, PathOnly("/usr/bin:/bin"), compile) == Ok([UsrBin, Bin])
  {
    var m := compile(".*").value;
    assert "/usr/bin:/bin" == UsrBin + [':'] + Bin;
    assert Run(DefaultArgs, PathOnly(UsrBin + [':'] + Bin), compile) == Ok(Filter(m, [UsrBin, Bin])) by {
      RunOnTwo(DefaultArgs, UsrBin, Bin, compile);
    }
    assert Filter(m, [UsrBin, Bin]) == [UsrBin, Bin] by {
      FilterTwo(m, UsrBin, Bin);
    }
  }

  /** With `PATH=/a;/b` and the separator `;`, the tool prints `/a` then `/b`. */
  lemma SeparatorOverride(compile: Compiler)
    requires compile(".*").Some?
    requires compile(".*").value(A) && compile(".*").value(B)
    ensures Run(DefaultArgs.(sep := ';'), PathOnly("/a;/b"), compile) == Ok([A, B])
  {
    var m := compile(".*").value;
    assert Run(DefaultArgs.(sep := ';'), PathOnly("/a;/b"), compile) == Ok(Filter(m, [A, B])) by {
      assert "/a;/b" == A + [';'] + B;
      RunOnTwo(DefaultArgs.(sep := ';'), A, B, compile);
    }
    assert Filter(m, [A, B]) == [A, B] by {
      FilterTwo(m, A, B);
    }
  }

  /** With `PATH=/usr/bin:/opt/foo` and a pattern that matches `/opt/foo`
      but not `/usr/bin`, only `/opt/foo` is printed. */
  lemma FilterKeepsMatches(compile: Compiler)
    requires compile("foo").Some?
    requires !compile("foo").value(UsrBin) && compile("foo").value(OptFoo)
    ensures Run(DefaultArgs.(regex := "foo"), PathOnly("/usr/bin:/opt/foo"), compile) == Ok([OptFoo])
  {
    var m := compile("foo").value;
    assert Run(DefaultArgs.(regex := "foo"), PathOnly("/usr/bin:/opt/foo"), compile)
        == Ok(Filter(m, [UsrBin, OptFoo])) by {
      assert "/usr/bin:/opt/foo" == UsrBin + [':'] + OptFoo;
      RunOnTwo(DefaultArgs.(regex := "foo"), UsrBin, OptFoo, compile);
    }
    assert Filter(m, [UsrBin, OptFoo]) == [OptFoo] by {
      FilterTwo(m, UsrBin, OptFoo);
    }
  }

  /** Asking for a variable that is not set prints nothing and succeeds,
      unless `failUnset` is on, in which case the run fails naming it. */
  lemma UnsetVariableHandling(compile: Compiler)
    requires compile(".*").Some?
    ensures var args := DefaultArgs.(vars := ["FOO_UNSET_VAR"]);
            && Run(args, PathOnly("/bin"), compile) == Ok([])
            && Run(args.(failUnset := true), PathOnly("/bin"), compile)
               == Err(UnsetVariable("FOO_UNSET_VAR"))
  {
    var env := PathOnly("/bin");
    assert !KeyAt(env, 0, "FOO_UNSET_VAR");
    assert Var(env, "FOO_UNSET_VAR") == NotPresent;
  }
}
