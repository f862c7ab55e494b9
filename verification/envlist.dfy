/** `toEnvVarsList` (cli/cli.go) and the environment a child process reads
    back from the list it is given. Go visits a map's keys in an unspecified
    order; that order is a parameter here, any enumeration of the keys. */
module EnvList {
  import opened Wrappers
  import Strings

  /** The `"%s=%s"` rendering of one variable. */
  function EnvEntry(key: string, value: string): string
  {
    key + "=" + value
  }

  /** `order` lists every key of the set exactly once. */
  predicate IsEnumeration(order: seq<string>, keys: set<string>)
  {
    && (forall i :: 0 <= i < |order| ==> order[i] in keys)
    && (forall k :: k in keys ==> k in order)
    && (forall i, j :: 0 <= i < j < |order| ==> order[i] != order[j])
  }

  /** `toEnvVarsList`: one `key=value` string per visited key, in visiting order. */
  function ToEnvVarsList(vars: map<string, string>, order: seq<string>): (list: seq<string>)
    requires forall i :: 0 <= i < |order| ==> order[i] in vars
    ensures |list| == |order|
    ensures forall i :: 0 <= i < |list| ==> list[i] == EnvEntry(order[i], vars[order[i]])
  {
    if |order| == 0 then []
    else
      var last := order[|order| - 1];
      ToEnvVarsList(vars, order[..|order| - 1]) + [EnvEntry(last, vars[last])]
  }

  /** Splits `s` at its first `c` into the text before and the text after it. */
  function SplitAtFirst(s: string, c: char): (r: Option<(string, string)>)
    ensures r.None? <==> c !in s
    ensures r.Some? ==> s == r.value.0 + [c] + r.value.1 && c !in r.value.0
  {
    match Strings.IndexOf(s, c)
    case None => None
    case Some(i) => assert s == s[..i] + [c] + s[i + 1..]; Some((s[..i], s[i + 1..]))
  }

  /** The variables a child process sees when started with `list` as its whole
      environment: each entry names the variable before its first `=`; a later
      entry for the same name wins, and an entry without `=` defines nothing. */
  function ParseEnviron(list: seq<string>): map<string, string>
  {
    if |list| == 0 then map[]
    else
      var env := ParseEnviron(list[..|list| - 1]);
      match SplitAtFirst(list[|list| - 1], '=')
      case Some(kv) => env[kv.0 := kv.1]
      case None => env
  }

  /** An entry reads back as its variable when the name holds no `=`. */
  lemma EnvEntryRoundTrip(key: string, value: string)
    requires '=' !in key
    ensures SplitAtFirst(EnvEntry(key, value), '=') == Some((key, value))
  {
    Strings.IndexOfAfterPrefix(key, '=', value);
    assert EnvEntry(key, value) == key + ['='] + value;
    var s := EnvEntry(key, value);
    assert s[..|key|] == key;
    assert s[|key| + 1..] == value;
  }

  /** The variables of `vars` named in `order`, with their values. */
  function Visited(vars: map<string, string>, order: seq<string>): (env: map<string, string>)
    requires forall i :: 0 <= i < |order| ==> order[i] in vars
    ensures forall k :: k in env <==> k in order
    ensures forall k :: k in env ==> env[k] == vars[k]
  {
    if |order| == 0 then map[]
    else
      var last := order[|order| - 1];
      var env := Visited(vars, order[..|order| - 1]);
      assert forall k :: k in order <==> k in order[..|order| - 1] || k == last by {
        assert order == order[..|order| - 1] + [last];
      }
      env[last := vars[last]]
  }

  /** The environment read back from the list for any visiting order holds
      exactly the visited variables with their values. */
  lemma {:induction false} ParseToEnvVarsList(vars: map<string, string>, order: seq<string>)
    requires forall i :: 0 <= i < |order| ==> order[i] in vars && '=' !in order[i]
    ensures ParseEnviron(ToEnvVarsList(vars, order)) == Visited(vars, order)
    decreases |order|
  {
    if |order| > 0 {
      var init := order[..|order| - 1];
      var last := order[|order| - 1];
      var list := ToEnvVarsList(vars, order);
      var initList := ToEnvVarsList(vars, init);
      assert list[..|list| - 1] == initList;
      assert list[|list| - 1] == EnvEntry(last, vars[last]);
      ParseToEnvVarsList(vars, init);
      EnvEntryRoundTrip(last, vars[last]);
    }
  }

  /** The child's environment is exactly the credential map: every variable
      with its value and nothing else, whatever order the keys were visited in. */
  lemma ChildEnvironmentIsVars(vars: map<string, string>, order: seq<string>)
    requires IsEnumeration(order, vars.Keys)
    requires forall k :: k in vars ==> '=' !in k
    ensures ParseEnviron(ToEnvVarsList(vars, order)) == vars
  {
    ParseToEnvVarsList(vars, order);
    VisitedAll(vars, order);
  }

  lemma VisitedAll(vars: map<string, string>, order: seq<string>)
    requires forall i :: 0 <= i < |order| ==> order[i] in vars
    requires forall k :: k in vars ==> k in order
    ensures Visited(vars, order) == vars
  {
    var env := Visited(vars, order);
    assert forall k :: k in env <==> k in vars;
    assert forall k :: k in env ==> env[k] == vars[k];
  }

  /** The list handed to a child holds one entry per credential and, when no
      key contains `=`, reads back as exactly the credential map. */
  lemma ToEnvVarsListIsEnvironment(vars: map<string, string>, order: seq<string>)
    requires IsEnumeration(order, vars.Keys)
    ensures |ToEnvVarsList(vars, order)| == |vars|
    ensures (forall k :: k in vars ==> '=' !in k) ==> ParseEnviron(ToEnvVarsList(vars, order)) == vars
  {
    ToEnvVarsListLength(vars, order);
    if forall k :: k in vars ==> '=' !in k {
      ChildEnvironmentIsVars(vars, order);
    }
  }

  /** One entry per variable: the list is as long as the map. */
  lemma ToEnvVarsListLength(vars: map<string, string>, order: seq<string>)
    requires IsEnumeration(order, vars.Keys)
    ensures |ToEnvVarsList(vars, order)| == |vars|
  {
    DistinctCardinality(order);
    assert (set k | k in order) == vars.Keys;
  }

  /** The list's entries are exactly the renderings of the map's entries. */
  lemma ToEnvVarsListEntries(vars: map<string, string>, order: seq<string>)
    requires IsEnumeration(order, vars.Keys)
    ensures (set e | e in ToEnvVarsList(vars, order)) == (set k | k in vars :: EnvEntry(k, vars[k]))
  {
    var list := ToEnvVarsList(vars, order);
    forall k | k in vars
      ensures EnvEntry(k, vars[k]) in list
    {
      var i :| 0 <= i < |order| && order[i] == k;
      assert list[i] == EnvEntry(k, vars[k]);
    }
  }

  /** A sequence without repeats has as many distinct elements as positions. */
  lemma {:induction false} DistinctCardinality(s: seq<string>)
    requires forall i, j :: 0 <= i < j < |s| ==> s[i] != s[j]
    ensures |set x | x in s| == |s|
    decreases |s|
  {
    if |s| > 0 {
      var init := s[..|s| - 1];
      DistinctCardinality(init);
      assert (set x | x in s) == (set x | x in init) + {s[|s| - 1]} by {
        assert s == init + [s[|s| - 1]];
      }
      assert s[|s| - 1] !in init;
    }
  }

  const AccessKeyVar := "AWS_ACCESS_KEY_ID"
  const SecretKeyVar := "AWS_SECRET_ACCESS_KEY"
  const SessionTokenVar := "AWS_SESSION_TOKEN"
  const SecurityTokenVar := "AWS_SECURITY_TOKEN"

  /** The shape `AssumeIAmRole` gives its credentials: four fixed variables,
      the legacy security token a copy of the session token. */
  predicate IsCredentialMap(creds: map<string, string>)
  {
    && creds.Keys == {AccessKeyVar, SecretKeyVar, SessionTokenVar, SecurityTokenVar}
    && creds[SecurityTokenVar] == creds[SessionTokenVar]
  }

  lemma CredentialKeysPlain()
    ensures '=' !in AccessKeyVar && '=' !in SecretKeyVar
    ensures '=' !in SessionTokenVar && '=' !in SecurityTokenVar
  {
  }

  lemma CredentialKeyCount()
    ensures |{AccessKeyVar, SecretKeyVar, SessionTokenVar, SecurityTokenVar}| == 4
  {
    assert AccessKeyVar[4] != SecretKeyVar[4];
    assert AccessKeyVar[4] != SessionTokenVar[4];
    assert AccessKeyVar[4] != SecurityTokenVar[4];
    assert SecretKeyVar[6] != SessionTokenVar[6];
    assert SecretKeyVar[7] != SecurityTokenVar[7];
    assert SessionTokenVar[6] != SecurityTokenVar[6];
  }

  /** A child started with role credentials sees exactly those four variables,
      both token variables carrying the same value, and no other variable. */
  lemma CredentialEnvironment(creds: map<string, string>, order: seq<string>)
    requires IsCredentialMap(creds)
    requires IsEnumeration(order, creds.Keys)
    ensures |ToEnvVarsList(creds, order)| == 4
    ensures ParseEnviron(ToEnvVarsList(creds, order)) == creds
    ensures ParseEnviron(ToEnvVarsList(creds, order))[SecurityTokenVar]
         == ParseEnviron(ToEnvVarsList(creds, order))[SessionTokenVar]
  {
    CredentialKeysPlain();
    assert forall k :: k in creds ==> '=' !in k;
    ChildEnvironmentIsVars(creds, order);
    ToEnvVarsListLength(creds, order);
    CredentialKeyCount();
  }
}
