/**
  The repository policy table: user-written policies (`UserPolicy`) become
  `Policy` records, and `Config` indexes them by repository name. A
  construction failure, which the program reports with a panic at startup,
  is an `Err` here.
*/
module GitConfig {
  import opened Wrappers

  datatype Service = Github

  datatype Event = Push

  /** What to do for a matching request; `Pull` is the only kind. */
  datatype Action = Pull(path: string, remote: string, branch: string, sshKeyPath: string)

  /** A policy as written in the configuration; `fullRepoName` is "owner/repo". */
  datatype UserPolicy = UserPolicy(
    service: Service, fullRepoName: string, secret: string, event: Event, action: Action)

  datatype UserConfig = UserConfig(policies: seq<UserPolicy>)

  datatype Policy = Policy(
    secret: string, service: Service, user: string, repoName: string,
    fullRepoName: string, sshUrl: string, event: Event, action: Action)

  datatype ConfigError = InvalidRepoName | DuplicateRepoName

  const SshUrlPrefix: string := "git@github.com:"
  const SshUrlSuffix: string := ".git"

  // ---------------------------------------------------------------------
  // `str::split` on one character, and its inverse.
  // ---------------------------------------------------------------------

  /** The pieces of `s` between occurrences of `sep`, in order; empty pieces included, so there is always at least one. */
  function Split(s: string, sep: char): (parts: seq<string>)
    ensures |parts| >= 1
    decreases |s|
  {
    if s == [] then [[]]
    else
      var rest := Split(s[1..], sep);
      if s[0] == sep then [[]] + rest
      else [[s[0]] + rest[0]] + rest[1..]
  }

  /** The pieces glued back together with `sep` between them. */
  function Join(parts: seq<string>, sep: char): (s: string)
    requires |parts| >= 1
  {
    if |parts| == 1 then parts[0] else parts[0] + [sep] + Join(parts[1..], sep)
  }

  /** The number of occurrences of `c` in `s`. */
  function Count(s: string, c: char): (n: nat)
    ensures n <= |s|
  {
    if s == [] then 0 else (if s[0] == c then 1 else 0) + Count(s[1..], c)
  }

  /** Splitting and joining again gives back the original string. */
  lemma {:induction false} JoinSplit(s: string, sep: char)
    ensures Join(Split(s, sep), sep) == s
  {
    if s != [] {
      var rest := Split(s[1..], sep);
      JoinSplit(s[1..], sep);
      if s[0] == sep {
        assert Split(s, sep)[1..] == rest;
      } else if |rest| == 1 {
      } else {
        var parts := Split(s, sep);
        assert parts[1..] == rest[1..];
        assert Join(rest, sep) == rest[0] + [sep] + Join(rest[1..], sep);
      }
    }
  }

  /** There is one more piece than there are separators. */
  lemma {:induction false} SplitCount(s: string, sep: char)
    ensures |Split(s, sep)| == Count(s, sep) + 1
  {
    if s != [] {
      SplitCount(s[1..], sep);
    }
  }

  /** No piece contains the separator. */
  lemma {:induction false} SplitPiecesFree(s: string, sep: char)
    ensures forall i :: 0 <= i < |Split(s, sep)| ==> sep !in Split(s, sep)[i]
  {
    if s != [] {
      SplitPiecesFree(s[1..], sep);
      var rest := Split(s[1..], sep);
      if s[0] != sep {
        assert sep !in rest[0];
        assert sep !in [s[0]] + rest[0];
      }
    }
  }

  // ---------------------------------------------------------------------
  // `From<UserPolicy> for Policy`.
  // ---------------------------------------------------------------------

  /** Splits "owner/repo" and derives the SSH remote URL; fails unless the name has exactly two pieces. */
  function PolicyFrom(userPolicy: UserPolicy): (r: Result<Policy, ConfigError>)
    ensures r.Ok? <==> Count(userPolicy.fullRepoName, '/') == 1
    ensures r.Err? ==> r.error == InvalidRepoName
    ensures r.Ok? ==> r.value.user + "/" + r.value.repoName == userPolicy.fullRepoName
    ensures r.Ok? ==> '/' !in r.value.user && '/' !in r.value.repoName
    ensures r.Ok? ==> r.value.sshUrl == SshUrlPrefix + userPolicy.fullRepoName + SshUrlSuffix
    ensures r.Ok? ==>
      && r.value.fullRepoName == userPolicy.fullRepoName
      && r.value.secret == userPolicy.secret
      && r.value.service == userPolicy.service
      && r.value.event == userPolicy.event
      && r.value.action == userPolicy.action
  {
    var names := Split(userPolicy.fullRepoName, '/');
    SplitCount(userPolicy.fullRepoName, '/');
    if |names| != 2 then
      Err(InvalidRepoName)
    else
      JoinSplit(userPolicy.fullRepoName, '/');
      SplitPiecesFree(userPolicy.fullRepoName, '/');
      assert Join(names, '/') == names[0] + "/" + names[1];
      Ok(Policy(
        secret := userPolicy.secret,
        service := userPolicy.service,
        user := names[0],
        repoName := names[1],
        fullRepoName := userPolicy.fullRepoName,
        sshUrl := SshUrlPrefix + userPolicy.fullRepoName + SshUrlSuffix,
        event := userPolicy.event,
        action := userPolicy.action))
  }

  /** Empty owner or repository pieces are accepted: only the number of pieces is checked. */
  lemma EmptyPiecesAccepted(userPolicy: UserPolicy)
    requires userPolicy.fullRepoName == "/"
    ensures PolicyFrom(userPolicy).Ok?
    ensures PolicyFrom(userPolicy).value.user == [] && PolicyFrom(userPolicy).value.repoName == []
  {
    assert Split("/", '/') == [[], []];
  }

  /** Every user policy converted, in order; the first invalid one aborts the whole conversion. */
  function PoliciesFrom(userPolicies: seq<UserPolicy>): (r: Result<seq<Policy>, ConfigError>)
    ensures r.Ok? <==> forall j :: 0 <= j < |userPolicies| ==> PolicyFrom(userPolicies[j]).Ok?
    ensures r.Err? ==> r.error == InvalidRepoName
    ensures r.Ok? ==> |r.value| == |userPolicies|
    ensures r.Ok? ==> forall j :: 0 <= j < |userPolicies| ==> Ok(r.value[j]) == PolicyFrom(userPolicies[j])
  {
    if forall j :: 0 <= j < |userPolicies| ==> PolicyFrom(userPolicies[j]).Ok? then
      Ok(seq(|userPolicies|, j requires 0 <= j < |userPolicies| => PolicyFrom(userPolicies[j]).value))
    else
      Err(InvalidRepoName)
  }

  // ---------------------------------------------------------------------
  // The table and `From<UserConfig> for Config`.
  // ---------------------------------------------------------------------

  datatype Config = Config(policies: seq<Policy>, nameMap: map<string, nat>)

  /** The repository names of a list of policies. */
  function Names(policies: seq<Policy>): set<string>
  {
    set p | p in policies :: p.repoName
  }

  predicate DistinctNames(policies: seq<Policy>)
  {
    forall i, j :: 0 <= i < j < |policies| ==> policies[i].repoName != policies[j].repoName
  }

  /** The table's invariant: the index knows exactly the policies' names and points at a policy of that name. */
  predicate Valid(c: Config)
  {
    && c.nameMap.Keys == Names(c.policies)
    && forall n :: n in c.nameMap ==> c.nameMap[n] < |c.policies| && c.policies[c.nameMap[n]].repoName == n
  }

  /** There are as many names as policies exactly when no name repeats. */
  lemma {:induction false} NamesCardinality(policies: seq<Policy>)
    ensures |Names(policies)| <= |policies|
    ensures |Names(policies)| == |policies| <==> DistinctNames(policies)
  {
    if policies != [] {
      var tail := policies[1..];
      NamesCardinality(tail);
      var n := policies[0].repoName;
      assert Names(policies) == {n} + Names(tail) by {
        assert forall p :: p in policies <==> p == policies[0] || p in tail;
      }
      if n in Names(tail) {
        var p :| p in tail && p.repoName == n;
        var k :| 0 <= k < |tail| && tail[k] == p;
        assert policies[0].repoName == policies[k + 1].repoName;
      } else {
        assert DistinctNames(policies) <==> DistinctNames(tail) by {
          if DistinctNames(tail) {
            forall i, j | 0 <= i < j < |policies|
              ensures policies[i].repoName != policies[j].repoName
            {
              if i == 0 {
                assert policies[j] in tail;
              } else {
                assert policies[i] == tail[i - 1] && policies[j] == tail[j - 1];
              }
            }
          }
        }
      }
    }
  }

  /** The `repo_name -> index` map after inserting every policy in order, later ones overwriting earlier ones. */
  function NameIndex(policies: seq<Policy>): (m: map<string, nat>)
    decreases |policies|
  {
    if policies == [] then map[]
    else
      var k := |policies| - 1;
      NameIndex(policies[..k])[policies[k].repoName := k]
  }

  /** The index knows exactly the policies' names, and maps each to the last policy carrying it. */
  lemma {:induction false} NameIndexLast(policies: seq<Policy>)
    ensures NameIndex(policies).Keys == Names(policies)
    ensures forall n :: n in NameIndex(policies) ==>
      NameIndex(policies)[n] < |policies| && policies[NameIndex(policies)[n]].repoName == n
    ensures forall n :: n in NameIndex(policies) ==>
      forall j :: NameIndex(policies)[n] < j < |policies| ==> policies[j].repoName != n
    decreases |policies|
  {
    if policies != [] {
      var k := |policies| - 1;
      var init := policies[..k];
      NameIndexLast(init);
      NamesExtend(policies, k);
      assert policies[..k + 1] == policies;
      var m, m0 := NameIndex(policies), NameIndex(init);
      forall n | n in m
        ensures m[n] < |policies| && policies[m[n]].repoName == n
        ensures forall j :: m[n] < j < |policies| ==> policies[j].repoName != n
      {
        if n != policies[k].repoName {
          assert m[n] == m0[n] && policies[m[n]] == init[m0[n]];
          forall j | m[n] < j < |policies|
            ensures policies[j].repoName != n
          {
            if j < k {
              assert policies[j] == init[j];
            }
          }
        }
      }
    }
  }

  /** Taking one more policy adds its name. */
  lemma NamesExtend(policies: seq<Policy>, i: nat)
    requires i < |policies|
    ensures Names(policies[..i + 1]) == Names(policies[..i]) + {policies[i].repoName}
  {
    assert policies[..i + 1] == policies[..i] + [policies[i]];
    assert forall p :: p in policies[..i + 1] <==> p in policies[..i] || p == policies[i];
  }

  /** The `repo_name -> index` map, built by one pass over the policies. */
  method BuildNameMap(policies: seq<Policy>) returns (nameMap: map<string, nat>)
    ensures nameMap == NameIndex(policies)
  {
    nameMap := map[];
    for i := 0 to |policies|
      invariant nameMap == NameIndex(policies[..i])
    {
      assert policies[..i + 1][..i] == policies[..i];
      nameMap := nameMap[policies[i].repoName := i];
    }
    assert policies[..|policies|] == policies;
  }

  /** Builds the table; fails on an invalid name or on two policies with the same repository name. */
  method ConfigFrom(userConfig: UserConfig) returns (r: Result<Config, ConfigError>)
    ensures r.Err? ==> (r.error == InvalidRepoName <==> PoliciesFrom(userConfig.policies).Err?)
    ensures r.Ok? <==>
      PoliciesFrom(userConfig.policies).Ok? && DistinctNames(PoliciesFrom(userConfig.policies).value)
    ensures r.Ok? ==> r.value.policies == PoliciesFrom(userConfig.policies).value && Valid(r.value)
    ensures r.Ok? ==> forall j :: 0 <= j < |r.value.policies| ==>
      GetPolicyFromName(r.value, r.value.policies[j].repoName) == Some(r.value.policies[j])
  {
    var converted := PoliciesFrom(userConfig.policies);
    if converted.Err? {
      return Err(InvalidRepoName);
    }
    var policies := converted.value;
    var nameMap := BuildNameMap(policies);
    NameIndexLast(policies);
    NamesCardinality(policies);
    assert |nameMap| == |Names(policies)|;
    if |policies| != |nameMap| {
      return Err(DuplicateRepoName);
    }
    var c := Config(policies, nameMap);
    forall j | 0 <= j < |policies|
      ensures GetPolicyFromName(c, policies[j].repoName) == Some(policies[j])
    {
      LookupFindsEach(c, j);
    }
    r := Ok(c);
  }

  // ---------------------------------------------------------------------
  // `Config::get_policy_from_name`.
  // ---------------------------------------------------------------------

  /** The policy the index names for `repoName`; none when the name is unknown (or the index points past the list). */
  function GetPolicyFromName(c: Config, repoName: string): (r: Option<Policy>)
    ensures r.Some? ==> r.value in c.policies
    ensures Valid(c) ==> (r.Some? <==> repoName in Names(c.policies))
    ensures Valid(c) && r.Some? ==> r.value.repoName == repoName
  {
    if repoName in c.nameMap then
      var i := c.nameMap[repoName];
      if i < |c.policies| then Some(c.policies[i]) else None
    else
      None
  }

  /** In a valid table with distinct names, each policy is found under its own name. */
  lemma LookupFindsEach(c: Config, j: nat)
    requires Valid(c) && DistinctNames(c.policies)
    requires j < |c.policies|
    ensures GetPolicyFromName(c, c.policies[j].repoName) == Some(c.policies[j])
  {
    var n := c.policies[j].repoName;
    assert n in Names(c.policies);
    var i := c.nameMap[n];
    assert c.policies[i].repoName == n;
  }
}
