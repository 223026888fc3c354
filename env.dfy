/** Start-up checks of the process environment, which is a map from names
    to values here. */
module Env {
  import opened Base
  import opened Rows
  import opened Text

  type Environment = map<string, string>

  /** The variables the server cannot start without, in the order the
      error message lists them. */
  const REQUIRED_ENV: seq<string> := ["DB_HOST", "DB_PORT", "DB_NAME", "DB_USER", "DB_PASSWORD", "JWT_SECRET"]

  const MISSING_ENV_PREFIX: string := "환경 변수 누락: "

  /** Absent, or nothing but white space. */
  predicate Unset(env: Environment, name: string) {
    name !in env || TrimJs(env[name]) == ""
  }

  /** The position of a required name in the list. */
  function Rank(name: string): nat {
    if name == "DB_HOST" then 0
    else if name == "DB_PORT" then 1
    else if name == "DB_NAME" then 2
    else if name == "DB_USER" then 3
    else if name == "DB_PASSWORD" then 4
    else 5
  }

  /** Each required name's rank is its position. */
  lemma RequiredRanks()
    ensures forall i :: 0 <= i < |REQUIRED_ENV| ==> Rank(REQUIRED_ENV[i]) == i
  {
    assert REQUIRED_ENV[0] == "DB_HOST" && REQUIRED_ENV[1] == "DB_PORT" && REQUIRED_ENV[2] == "DB_NAME";
    assert REQUIRED_ENV[3] == "DB_USER" && REQUIRED_ENV[4] == "DB_PASSWORD" && REQUIRED_ENV[5] == "JWT_SECRET";
  }

  /** The required names that are unset, in list order and each once. */
  function MissingEnv(env: Environment): (r: seq<string>)
    ensures forall k :: k in r <==> k in REQUIRED_ENV && Unset(env, k)
    ensures forall i, j :: 0 <= i < j < |r| ==> Rank(r[i]) < Rank(r[j])
  {
    var unset := (k: string) => Unset(env, k);
    forall k | k in REQUIRED_ENV && Unset(env, k) ensures k in Filter(REQUIRED_ENV, unset) {
      FilterKeepsRow(REQUIRED_ENV, unset, k);
    }
    forall k | k in Filter(REQUIRED_ENV, unset) ensures k in REQUIRED_ENV && Unset(env, k) {
      FilterRowFrom(REQUIRED_ENV, unset, k);
    }
    RequiredRanks();
    FilterPairwise(REQUIRED_ENV, unset, (a: string, b: string) => Rank(a) < Rank(b));
    Filter(REQUIRED_ENV, unset)
  }

  /** `validateEnv`: `None` when every required variable is set, otherwise
      the error it throws, naming the unset ones joined by `, `. */
  function ValidateEnv(env: Environment): (r: Option<string>)
    ensures r.None? <==> forall k :: k in REQUIRED_ENV ==> !Unset(env, k)
    ensures r.Some? ==> r.value == MISSING_ENV_PREFIX + JoinWith(MissingEnv(env), ", ")
  {
    var missing := MissingEnv(env);
    if |missing| > 0 then Some(MISSING_ENV_PREFIX + JoinWith(missing, ", "))
    else
      assert forall k :: k in REQUIRED_ENV ==> !Unset(env, k);
      None
  }

  /** An empty environment names all six, in list order. */
  lemma EmptyEnvironmentMessage()
    ensures ValidateEnv(map[]) == Some(MISSING_ENV_PREFIX + JoinWith(REQUIRED_ENV, ", "))
  {
    assert forall k :: k in REQUIRED_ENV ==> Unset(map[], k);
    FilterAll(REQUIRED_ENV, (k: string) => Unset(map[], k));
  }

  /** A value of blanks is unset; any other character makes it set. */
  lemma BlankIsUnset(env: Environment, name: string)
    requires name in env
    ensures env[name] == "  " ==> Unset(env, name)
    ensures env[name] == "x" ==> !Unset(env, name)
  {
    if env[name] == "x" {
      assert !IsJsSpace("x"[0]);
    }
  }

  /** With only `DB_PORT` unset, the message names `DB_PORT` alone. */
  lemma OnlyPortMissing(env: Environment)
    requires forall i :: 0 <= i < |REQUIRED_ENV| && i != 1 ==> !Unset(env, REQUIRED_ENV[i])
    requires Unset(env, "DB_PORT")
    ensures ValidateEnv(env) == Some(MISSING_ENV_PREFIX + "DB_PORT")
  {
    var unset := (k: string) => Unset(env, k);
    var r := REQUIRED_ENV;
    assert Filter(r[2..], unset) == [] by {
      forall x | x in r[2..] ensures !unset(x) {
        var j :| 0 <= j < |r[2..]| && r[2..][j] == x;
        assert r[j + 2] == x;
      }
      FilterNonEmpty(r[2..], unset);
    }
    assert Filter([r[0]] + [r[1]], unset) == ["DB_PORT"] by {
      FilterAppend([r[0]], [r[1]], unset);
      assert Filter([r[0]], unset) == [] && Filter([r[1]], unset) == ["DB_PORT"];
    }
    assert MissingEnv(env) == ["DB_PORT"] by {
      assert r == ([r[0]] + [r[1]]) + r[2..];
      FilterAppend([r[0]] + [r[1]], r[2..], unset);
    }
  }

  datatype AwsStatus = AwsStatus(enabled: bool, region: Option<string>, bucket: Option<string>)

  /** `awsConfigStatus`: enabled when both the region and the bucket are
      set and non-empty; both are reported as read. */
  function AwsConfigStatus(region: Option<string>, bucket: Option<string>): (r: AwsStatus)
    ensures r.enabled <==> Truthy(region) && Truthy(bucket)
    ensures r.region == region && r.bucket == bucket
  {
    AwsStatus(Truthy(region) && Truthy(bucket), region, bucket)
  }
}
