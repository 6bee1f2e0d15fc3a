/**
 * config.go: the HSM configurations, choosing the ones a user named, and
 * checking an HSM's SSH host key against the configured fingerprint.
 */
module HsmConfig {
  import opened Wrappers

  /** One HSM's configuration, as loaded from the JSON file. */
  datatype Config = Config(
    nickname: string,
    hostname: string,
    sshPort: int,
    sshLogin: string,
    sshPassword: string,
    sshFingerprint: string,
    password: string)

  /** Why the configuration file could not be loaded (opening, reading or parsing it). */
  datatype LoadError = OpenFailed | ReadFailed | ParseFailed

  /** `name` designates `c`, by host name or by nickname. */
  predicate Requested(c: Config, name: string)
  {
    c.hostname == name || c.nickname == name
  }

  /** `c` once for every name in `names` that designates it, in the order of `names`. */
  function Matches(c: Config, names: seq<string>): seq<Config>
  {
    if names == [] then []
    else Matches(c, names[..|names| - 1]) + (if Requested(c, names[|names| - 1]) then [c] else [])
  }

  /** How many of `names` designate `c`. */
  function MatchCount(c: Config, names: seq<string>): nat
  {
    if names == [] then 0
    else MatchCount(c, names[..|names| - 1]) + (if Requested(c, names[|names| - 1]) then 1 else 0)
  }

  /** The configurations `LoadConfigs` keeps: for each loaded one in turn, its `Matches`. */
  function Selection(all: seq<Config>, names: seq<string>): seq<Config>
  {
    if all == [] then []
    else Selection(all[..|all| - 1], names) + Matches(all[|all| - 1], names)
  }

  /**
   * `LoadConfigs` over the result of loading the file: a load error is passed
   * on with no configurations; otherwise the nested loop keeps each loaded
   * configuration once per requested name that designates it.
   */
  method LoadConfigs(loaded: Result<seq<Config>, LoadError>, names: seq<string>)
    returns (r: Result<seq<Config>, LoadError>)
    ensures loaded.Failure? ==> r == Failure(loaded.error)
    ensures loaded.Success? ==> r == Success(Selection(loaded.value, names))
  {
    if loaded.Failure? {
      return Failure(loaded.error);
    }
    var all := loaded.value;
    var configs: seq<Config> := [];
    var i := 0;
    while i < |all|
      invariant 0 <= i <= |all|
      invariant configs == Selection(all[..i], names)
    {
      var config := all[i];
      var j := 0;
      ghost var before := configs;
      while j < |names|
        invariant 0 <= j <= |names|
        invariant configs == before + Matches(config, names[..j])
      {
        if config.hostname == names[j] || config.nickname == names[j] {
          configs := configs + [config];
        }
        assert names[..j + 1][..j] == names[..j];
        j := j + 1;
      }
      assert names[..j] == names;
      assert all[..i + 1][..i] == all[..i];
      i := i + 1;
    }
    assert all[..i] == all;
    return Success(configs);
  }

  /** `Matches` holds `c` exactly `MatchCount` times and nothing else. */
  lemma {:induction false} MatchesCount(c: Config, names: seq<string>)
    ensures |Matches(c, names)| == MatchCount(c, names)
    ensures forall k :: 0 <= k < |Matches(c, names)| ==> Matches(c, names)[k] == c
    ensures multiset(Matches(c, names)) == multiset{}[c := MatchCount(c, names)]
  {
    if names != [] {
      MatchesCount(c, names[..|names| - 1]);
    }
  }

  /** `MatchCount` counts the positions in `names` that designate `c`. */
  lemma {:induction false} MatchCountPositive(c: Config, names: seq<string>)
    ensures MatchCount(c, names) > 0 <==> exists i :: 0 <= i < |names| && Requested(c, names[i])
  {
    if names != [] {
      var init := names[..|names| - 1];
      MatchCountPositive(c, init);
      assert forall i :: 0 <= i < |init| ==> init[i] == names[i];
    }
  }

  /** The order of the loaded list is kept: selecting from two lists one after the other. */
  lemma {:induction false} SelectionAppend(a: seq<Config>, b: seq<Config>, names: seq<string>)
    ensures Selection(a + b, names) == Selection(a, names) + Selection(b, names)
    decreases |b|
  {
    if b == [] {
      assert a + b == a;
    } else {
      var init := b[..|b| - 1];
      var last := b[|b| - 1];
      var ab := a + b;
      assert ab[..|ab| - 1] == a + init && ab[|ab| - 1] == last;
      assert Selection(ab, names) == Selection(a + init, names) + Matches(last, names);
      SelectionAppend(a, init, names);
      assert Selection(b, names) == Selection(init, names) + Matches(last, names);
    }
  }

  /**
   * Every loaded configuration appears in the selection exactly as many times
   * as it is loaded, times the number of requested names designating it.
   */
  lemma {:induction false} SelectionMultiplicity(all: seq<Config>, names: seq<string>, c: Config)
    ensures multiset(Selection(all, names))[c] == multiset(all)[c] * MatchCount(c, names)
  {
    if all != [] {
      var init := all[..|all| - 1];
      var last := all[|all| - 1];
      SelectionSnocCount(all, names, c);
      SnocCount(all, c);
      MatchesOccurrences(last, names, c);
      SelectionMultiplicity(init, names, c);
      MulStep(multiset(Selection(all, names))[c], multiset(init)[c], MatchCount(c, names), last == c);
    }
  }

  lemma SelectionSnocCount(all: seq<Config>, names: seq<string>, c: Config)
    requires all != []
    ensures multiset(Selection(all, names))[c]
      == multiset(Selection(all[..|all| - 1], names))[c] + multiset(Matches(all[|all| - 1], names))[c]
  {
  }

  lemma SnocCount(all: seq<Config>, c: Config)
    requires all != []
    ensures multiset(all)[c] == multiset(all[..|all| - 1])[c] + (if all[|all| - 1] == c then 1 else 0)
  {
    assert all == all[..|all| - 1] + [all[|all| - 1]];
  }

  lemma MatchesOccurrences(c': Config, names: seq<string>, c: Config)
    ensures multiset(Matches(c', names))[c] == if c' == c then MatchCount(c, names) else 0
  {
    MatchesCount(c', names);
  }

  lemma MulStep(x: int, p: int, q: int, hit: bool)
    requires x == p * q + (if hit then q else 0)
    ensures x == (p + (if hit then 1 else 0)) * q
  {
  }

  /** Every selected configuration was loaded and is designated by some requested name. */
  lemma {:induction false} SelectionSound(all: seq<Config>, names: seq<string>)
    ensures forall c :: c in Selection(all, names) ==>
      c in all && exists i :: 0 <= i < |names| && Requested(c, names[i])
  {
    forall c | c in Selection(all, names)
      ensures c in all && exists i :: 0 <= i < |names| && Requested(c, names[i])
    {
      SelectionMultiplicity(all, names, c);
      MatchCountPositive(c, names);
    }
  }

  /** No requested names, no configurations. */
  lemma {:induction false} SelectionNoNames(all: seq<Config>)
    ensures Selection(all, []) == []
  {
    if all != [] {
      SelectionNoNames(all[..|all| - 1]);
    }
  }

  /** The configurations of the example file the repository's tests load. */
  const Hsm1: Config := Config("hsm1", "1.1.1.1", 22, "admin", "password",
    "SHA256:40QvIN7FAGgYxl+5UVoTskPK1zKswZcDzPCK6aZReuU", "other_password")
  const Hsm2: Config := Config("", "2.2.2.2", 2222, "somebody", "s3cret",
    "SHA256:yv0u4ILh4aYY1GHGQpXu025WbZgUpJ0FBhjw18SgZPE", "other_s3cret")

  /** Which of the example configurations each requested name of the tests designates. */
  lemma ExampleMatches()
    ensures Matches(Hsm1, ["hsm1"]) == [Hsm1] && Matches(Hsm2, ["hsm1"]) == []
    ensures Matches(Hsm1, ["2.2.2.2"]) == [] && Matches(Hsm2, ["2.2.2.2"]) == [Hsm2]
    ensures Matches(Hsm1, ["hsm1", "2.2.2.2"]) == [Hsm1] && Matches(Hsm2, ["hsm1", "2.2.2.2"]) == [Hsm2]
  {
    assert Hsm1.hostname[0] != '2' && Hsm2.nickname != "hsm1" && Hsm2.hostname[0] != 'h';
    assert ["hsm1", "2.2.2.2"][..1] == ["hsm1"];
  }

  /** Selecting from the example file, whose configurations are `Hsm1` then `Hsm2`. */
  lemma ExampleSelection(names: seq<string>)
    ensures Selection([Hsm1, Hsm2], names) == Matches(Hsm1, names) + Matches(Hsm2, names)
  {
    assert [Hsm1, Hsm2][..1] == [Hsm1];
    assert Selection([Hsm1], names) == Matches(Hsm1, names) by {
      assert [Hsm1][..0] == [];
      assert Selection([Hsm1], names) == [] + Matches(Hsm1, names);
    }
  }

  /** The selections the repository's tests expect from the example file. */
  lemma ExampleSelections()
    ensures Selection([Hsm1, Hsm2], ["hsm1", "2.2.2.2"]) == [Hsm1, Hsm2]
    ensures Selection([Hsm1, Hsm2], ["hsm1"]) == [Hsm1]
    ensures Selection([Hsm1, Hsm2], ["2.2.2.2"]) == [Hsm2]
  {
    ExampleMatches();
    ExampleSelection(["hsm1", "2.2.2.2"]);
    ExampleSelection(["hsm1"]);
    ExampleSelection(["2.2.2.2"]);
  }

  /** Why a host key is refused: the host and the fingerprint it presented. */
  datatype HostKeyError = BadHostKey(host: string, fingerprint: string)

  /**
   * `verifyPublicKey`: the host key is accepted exactly when its fingerprint, as
   * computed by `fingerprint`, is the configured one; a refusal reports the
   * host and the fingerprint it presented.
   */
  function VerifyPublicKey<K>(cfg: Config, host: string, key: K, fingerprint: K -> string): (r: Option<HostKeyError>)
    ensures r.None? <==> fingerprint(key) == cfg.sshFingerprint
    ensures r.Some? ==> r.value == BadHostKey(host, fingerprint(key))
  {
    var actual := fingerprint(key);
    if actual != cfg.sshFingerprint then Some(BadHostKey(host, actual)) else None
  }
}
