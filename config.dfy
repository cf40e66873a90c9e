/** The start-up check of local.py: every required environment variable must be set
    to a non-empty value, or the script stops with `EnvironmentError`. */
module Config {
  import opened Base

  /** The names local.py requires, in its order. */
  const RequiredVars: seq<string> :=
    ["DB_HOST", "DB_NAME", "DB_USER", "DB_PASSWORD", "DB_PORT", "GROQ_API_KEY"]

  /** `not os.getenv(name)`: the variable is absent from the environment or empty. */
  predicate Unset(env: map<string, string>, name: string) {
    name !in env || env[name] == ""
  }

  /** The list comprehension `[var for var in names if not os.getenv(var)]`. */
  function MissingVars(env: map<string, string>, names: seq<string>): (r: seq<string>)
    ensures |r| <= |names|
    ensures forall v :: v in r <==> v in names && Unset(env, v)
  {
    if names == [] then []
    else (if Unset(env, names[0]) then [names[0]] else []) + MissingVars(env, names[1..])
  }

  /** The comprehension keeps the order of `names`: filtering a concatenation is the
      concatenation of the filtered parts. */
  lemma {:induction false} MissingVarsAppend(env: map<string, string>, a: seq<string>, b: seq<string>)
    ensures MissingVars(env, a + b) == MissingVars(env, a) + MissingVars(env, b)
  {
    if a == [] {
      assert a + b == b;
    } else {
      assert (a + b)[0] == a[0];
      assert (a + b)[1..] == a[1..] + b;
      MissingVarsAppend(env, a[1..], b);
    }
  }

  /** With every name unset, the report is `names` itself: nothing is dropped,
      repeated or reordered. */
  lemma {:induction false} MissingVarsAllUnset(env: map<string, string>, names: seq<string>)
    requires forall k :: 0 <= k < |names| ==> Unset(env, names[k])
    ensures MissingVars(env, names) == names
  {
    if names != [] {
      MissingVarsAllUnset(env, names[1..]);
    }
  }

  /** The `EnvironmentError` raised, carrying the missing names. */
  datatype EnvironmentError = EnvironmentError(missing: seq<string>)

  /** `sep.join(names)`: the names in order, with `sep` between neighbours. */
  function Join(names: seq<string>, sep: string): (r: string)
    ensures names == [] ==> r == ""
    ensures names != [] ==> |names[0]| <= |r| && r[..|names[0]|] == names[0]
  {
    if names == [] then ""
    else if |names| == 1 then names[0]
    else names[0] + sep + Join(names[1..], sep)
  }

  /** Joining two lists is joining each and putting `sep` between the results. */
  lemma {:induction false} JoinAppend(a: seq<string>, b: seq<string>, sep: string)
    requires a != [] && b != []
    ensures Join(a + b, sep) == Join(a, sep) + sep + Join(b, sep)
    decreases |a|
  {
    if |a| == 1 {
      assert (a + b)[1..] == b;
    } else {
      assert (a + b)[0] == a[0];
      assert (a + b)[1..] == a[1..] + b;
      JoinAppend(a[1..], b, sep);
    }
  }

  /** `", ".join(["DB_HOST", "DB_PORT"])`. */
  lemma JoinExample()
    ensures Join(["DB_HOST", "DB_PORT"], ", ") == "DB_HOST, DB_PORT"
  {
    assert ["DB_HOST", "DB_PORT"][1..] == ["DB_PORT"];
  }

  /** The text of the raised error: the fixed prefix followed by the joined names. */
  function Message(e: EnvironmentError): (r: string)
    ensures |r| >= |"Missing environment variables: "|
    ensures r[..|"Missing environment variables: "|] == "Missing environment variables: "
    ensures r[|"Missing environment variables: "|..] == Join(e.missing, ", ")
  {
    "Missing environment variables: " + Join(e.missing, ", ")
  }

  /** Lines 22-25 of local.py: the script stops exactly when some required variable
      is unset or empty, and the error lists exactly those names, in order. */
  function StartupCheck(env: map<string, string>): (r: Result<(), EnvironmentError>)
    ensures r.Failure? <==> exists v :: v in RequiredVars && Unset(env, v)
    ensures r.Failure? ==> r.error.missing == MissingVars(env, RequiredVars) && r.error.missing != []
  {
    var missing := MissingVars(env, RequiredVars);
    if missing != [] then
      assert missing[0] in missing;
      Failure(EnvironmentError(missing))
    else Success(())
  }
}
