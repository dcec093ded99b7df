/**
 The process environment as a value. The operating system hands over
 platform strings that may or may not be valid Unicode; the tool only ever
 reads the table, in the order the operating system enumerates it.
 */
module Environment {
  import opened Errors

  /** A platform string: either it decodes to text, or it does not. */
  datatype OsString = Decodable(text: string) | Undecodable

  /** One `KEY=VALUE` entry of the environment table. */
  datatype EnvVar = EnvVar(key: OsString, value: OsString)

  /** The environment table in enumeration order. */
  type Env = seq<EnvVar>

  /** The three outcomes of looking one variable up by name. */
  datatype VarLookup = Present(text: string) | NotPresent | NotUnicode

  /** True iff `name` is the key of entry `i`. */
  predicate KeyAt(env: Env, i: int, name: string)
    requires 0 <= i < |env|
  {
    env[i].key == Decodable(name)
  }

  /** Entry `i` is the first entry whose key is `name`. */
  predicate FirstKeyAt(env: Env, i: int, name: string) {
    && 0 <= i < |env|
    && KeyAt(env, i, name)
    && forall j :: 0 <= j < i ==> !KeyAt(env, j, name)
  }

  /** The raw value stored under `name`: the first entry with that key wins. */
  function Lookup(env: Env, name: string): (r: Option<OsString>)
    ensures r.None? <==> forall i :: 0 <= i < |env| ==> !KeyAt(env, i, name)
    ensures r.Some? ==>
      exists i :: FirstKeyAt(env, i, name) && env[i].value == r.value
  {
    if |env| == 0 then None
    else if env[0].key == Decodable(name) then
      assert FirstKeyAt(env, 0, name);
      Some(env[0].value)
    else
      var r := Lookup(env[1..], name);
      assert !KeyAt(env, 0, name);
      assert forall i :: 1 <= i < |env| ==> (KeyAt(env, i, name) <==> KeyAt(env[1..], i - 1, name));
      assert forall j :: 0 <= j < |env| - 1 ==> (KeyAt(env[1..], j, name) <==> KeyAt(env, j + 1, name));
      assert forall j :: 0 <= j < |env| - 1 ==> FirstKeyAt(env[1..], j, name) ==> FirstKeyAt(env, j + 1, name);
      r
  }

  /** Looking a variable up by name, as `std::env::var` does: absent keys
      and undecodable values are told apart, and when a key occurs more
      than once its first entry decides. */
  function Var(env: Env, name: string): (r: VarLookup)
    ensures r.NotPresent? <==> forall i :: 0 <= i < |env| ==> !KeyAt(env, i, name)
    ensures r.Present? ==>
      exists i :: FirstKeyAt(env, i, name) && env[i].value == Decodable(r.text)
    ensures r.NotUnicode? ==>
      exists i :: FirstKeyAt(env, i, name) && env[i].value == Undecodable
  {
    match Lookup(env, name)
    case None => NotPresent
    case Some(Decodable(text)) => Present(text)
    case Some(Undecodable) => NotUnicode
  }
}
