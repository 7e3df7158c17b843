/** The `get` function the page template calls on an image's environment list
    (minihub.go:106-115), with the `strings.Replace(s, old, new, 1)` it relies on. */
module TemplateHelpers {
  import opened Types

  /** `strings.Index(s, pat)`: where `pat` first occurs in `s`. */
  function IndexOf(s: string, pat: string): (r: Option<nat>)
    ensures r.Some? ==> r.value <= |s| && pat <= s[r.value..]
    ensures r.Some? ==> forall k :: 0 <= k < r.value ==> !(pat <= s[k..])
    ensures r.None? ==> forall k :: 0 <= k <= |s| ==> !(pat <= s[k..])
    decreases |s|
  {
    if pat <= s then Some(0)
    else if s == [] then None
    else
      match IndexOf(s[1..], pat)
      case None =>
        assert forall k :: 1 <= k <= |s| ==> s[k..] == s[1..][k - 1..];
        None
      case Some(k) =>
        assert forall j :: 1 <= j <= |s| ==> s[j..] == s[1..][j - 1..];
        Some(k + 1)
  }

  /** `strings.Replace(s, pat, with, 1)`: replaces the first occurrence of `pat` with `with`. */
  function ReplaceOnce(s: string, pat: string, with: string): (r: string)
    ensures IndexOf(s, pat).None? ==> r == s
    ensures IndexOf(s, pat).Some? ==>
              var k := IndexOf(s, pat).value;
              && |r| == |s| - |pat| + |with|
              && r[..k] == s[..k]
              && r[k..k + |with|] == with
              && r[k + |with|..] == s[k + |pat|..]
  {
    match IndexOf(s, pat)
    case None => s
    case Some(k) => s[..k] + with + s[k + |pat|..]
  }

  /** Removing the first occurrence of a prefix removes the prefix. */
  lemma RemovePrefix(s: string, pat: string)
    requires pat <= s
    ensures ReplaceOnce(s, pat, "") == s[|pat|..]
  {
    assert IndexOf(s, pat) == Some(0);
  }

  /** The entry `KEY=VALUE` is a setting of `field`. */
  predicate Sets(field: string, entry: string) {
    field + "=" <= entry
  }

  /** What `get(field, env)` yields: the value of the first setting of `field`, or the
      empty string when there is none. */
  function EnvValue(field: string, env: seq<string>): string {
    if env == [] then ""
    else if Sets(field, env[0]) then env[0][|field| + 1..]
    else EnvValue(field, env[1..])
  }

  /** `get`: scans the entries in order and returns at the first setting of `field`. */
  method Get(field: string, input: seq<string>) returns (r: string)
    ensures r == EnvValue(field, input)
  {
    for i := 0 to |input|
      invariant EnvValue(field, input) == EnvValue(field, input[i..])
    {
      assert input[i..][1..] == input[i + 1..];
      var prefix := field + "=";
      if prefix <= input[i] {
        RemovePrefix(input[i], prefix);
        return ReplaceOnce(input[i], prefix, "");
      }
    }
    return "";
  }

  /** The value is the text after `field=` in the first setting of `field`. */
  lemma {:induction false} EnvValueOfFirstSetting(field: string, env: seq<string>, i: nat)
    requires i < |env| && Sets(field, env[i])
    requires forall j :: 0 <= j < i ==> !Sets(field, env[j])
    ensures EnvValue(field, env) == env[i][|field| + 1..]
  {
    if i > 0 {
      EnvValueOfFirstSetting(field, env[1..], i - 1);
    }
  }

  /** Without a setting of `field` the value is the empty string. */
  lemma {:induction false} EnvValueUnset(field: string, env: seq<string>)
    requires forall j :: 0 <= j < |env| ==> !Sets(field, env[j])
    ensures EnvValue(field, env) == ""
  {
    if env != [] {
      EnvValueUnset(field, env[1..]);
    }
  }

  /** A non-empty value always comes from an entry `field=value` of the list. */
  lemma {:induction false} EnvValueFromEntry(field: string, env: seq<string>)
    ensures EnvValue(field, env) == "" || exists i :: 0 <= i < |env| && env[i] == field + "=" + EnvValue(field, env)
  {
    if env != [] {
      if Sets(field, env[0]) {
        assert env[0] == field + "=" + env[0][|field| + 1..];
      } else {
        EnvValueFromEntry(field, env[1..]);
        if EnvValue(field, env) != "" {
          var i :| 0 <= i < |env[1..]| && env[1..][i] == field + "=" + EnvValue(field, env);
          assert env[i + 1] == env[1..][i];
        }
      }
    }
  }

  /** Once `field` is set, entries after the list change nothing. */
  lemma {:induction false} EnvValueIgnoresLater(field: string, env: seq<string>, more: seq<string>)
    requires exists i :: 0 <= i < |env| && Sets(field, env[i])
    ensures EnvValue(field, env + more) == EnvValue(field, env)
  {
    assert (env + more)[0] == env[0];
    if !Sets(field, env[0]) {
      var i :| 0 <= i < |env| && Sets(field, env[i]);
      assert env[1..][i - 1] == env[i];
      EnvValueIgnoresLater(field, env[1..], more);
      assert (env + more)[1..] == env[1..] + more;
    }
  }

  /** Adding `field=value` to a list that does not set `field` makes `value` its value. */
  lemma {:induction false} EnvValueAfterSetting(field: string, value: string, env: seq<string>)
    requires forall j :: 0 <= j < |env| ==> !Sets(field, env[j])
    ensures EnvValue(field, env + [field + "=" + value]) == value
  {
    if env == [] {
      assert env + [field + "=" + value] == [field + "=" + value];
    } else {
      assert (env + [field + "=" + value])[1..] == env[1..] + [field + "=" + value];
      EnvValueAfterSetting(field, value, env[1..]);
    }
  }
}
