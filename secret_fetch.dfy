/** `ConjurPipe.fetch_secrets`: check the requested identifiers first, and
    only when they pass ask the Conjur client for their values. The client
    is a stand-in that answers from a map and records every `get_many`
    call it receives. */
module SecretFetch {
  import opened Wrappers
  import SecretNames
  import EnvFile
  import JsonString

  type Secret = EnvFile.Secret

  /** Why the client returned no secrets: the first identifier it holds no
      value for. */
  datatype RetrievalError = NotFound(id: string)

  /** Why `fetch_secrets` raised: the names were rejected before any
      request, or the client's request failed. */
  datatype FetchError = Invalid(reason: SecretNames.ValidationError) | Retrieval(cause: RetrievalError)

  /** What the stand-in client answers to `get_many(*ids)`: every
      identifier with its value, in request order, or the first identifier
      it has no value for. */
  function Lookup(store: map<string, string>, ids: seq<string>): (r: Result<seq<Secret>, RetrievalError>)
    ensures r.Success? <==> forall i :: 0 <= i < |ids| ==> ids[i] in store
    ensures r.Success? ==> (|r.value| == |ids| &&
      forall i :: 0 <= i < |ids| ==> r.value[i] == (ids[i], store[ids[i]]))
    ensures r.Failure? ==> exists i :: (0 <= i < |ids| && ids[i] !in store && r.error == NotFound(ids[i]) &&
      forall j :: 0 <= j < i ==> ids[j] in store)
  {
    if |ids| == 0 then Success([])
    else if ids[0] !in store then Failure(NotFound(ids[0]))
    else match Lookup(store, ids[1..])
      case Failure(e) =>
        assert exists i :: (1 <= i < |ids| && ids[i] !in store && e == NotFound(ids[i]) &&
          forall j :: 0 <= j < i ==> ids[j] in store) by {
          var k :| 0 <= k < |ids[1..]| && ids[1..][k] !in store && e == NotFound(ids[1..][k]) &&
            forall j :: 0 <= j < k ==> ids[1..][j] in store;
          assert forall j :: 1 <= j < k + 1 ==> ids[j] == ids[1..][j - 1];
        }
        Failure(e)
      case Success(rest) => Success([(ids[0], store[ids[0]])] + rest)
  }

  /** The specification of `fetch_secrets`: the validation error if the
      names are rejected, otherwise whatever the client answers. It uses
      the intended name check, which differs from the one as written only
      on names that end in a newline. */
  function Fetch(store: map<string, string>, ids: seq<string>): (r: Result<seq<Secret>, FetchError>)
  {
    match SecretNames.ValidateStrict(ids)
    case Failure(e) => Failure(Invalid(e))
    case Success(_) =>
      match Lookup(store, ids)
      case Failure(e) => Failure(Retrieval(e))
      case Success(secrets) => Success(secrets)
  }

  /** The Conjur client, reduced to `get_many`. */
  class Client {
    /** The values the server holds, by identifier. */
    var store: map<string, string>
    /** The argument list of every `get_many` call so far, oldest first. */
    var calls: seq<seq<string>>

    constructor(store: map<string, string>)
      ensures this.store == store && calls == []
    {
      this.store := store;
      calls := [];
    }

    /** `client.get_many(*ids)`: records the call and answers it. */
    method GetMany(ids: seq<string>) returns (r: Result<seq<Secret>, RetrievalError>)
      modifies this`calls
      ensures calls == old(calls) + [ids]
      ensures r == Lookup(store, ids)
    {
      calls := calls + [ids];
      r := Lookup(store, ids);
    }
  }

  /** `fetch_secrets`: the client is called once, with the identifiers as
      given, exactly when validation passes; its result is passed through
      unchanged. */
  method FetchSecrets(client: Client, ids: seq<string>) returns (r: Result<seq<Secret>, FetchError>)
    modifies client`calls
    ensures r == Fetch(client.store, ids)
    ensures SecretNames.ValidateStrict(ids).Failure? ==> client.calls == old(client.calls)
    ensures SecretNames.ValidateStrict(ids).Success? ==> client.calls == old(client.calls) + [ids]
  {
    var checked := SecretNames.ValidateStrict(ids);
    if checked.Failure? {
      return Failure(Invalid(checked.error));
    }
    var answer := client.GetMany(ids);
    match answer
    case Failure(e) => r := Failure(Retrieval(e));
    case Success(secrets) => r := Success(secrets);
  }

  // ---------------------------------------------------------------------
  // Properties of the specification

  /** A rejected list never reaches the client: the result is the
      validation error whatever the server holds. */
  lemma RejectedNamesFailClosed(store: map<string, string>, store': map<string, string>, ids: seq<string>)
    requires SecretNames.ValidateStrict(ids).Failure?
    ensures Fetch(store, ids) == Failure(Invalid(SecretNames.ValidateStrict(ids).error))
    ensures Fetch(store, ids) == Fetch(store', ids)
  {
  }

  /** `fetch_secrets` succeeds exactly when the short names are pairwise
      distinct shell variable names and the server holds every identifier;
      then it returns each identifier with its value, in request order. */
  lemma FetchSucceeds(store: map<string, string>, ids: seq<string>)
    ensures Fetch(store, ids).Success? <==>
      && SecretNames.Distinct(SecretNames.ShortNames(ids))
      && (forall i :: 0 <= i < |ids| ==> SecretNames.IsShellName(SecretNames.ShortName(ids[i])))
      && (forall i :: 0 <= i < |ids| ==> ids[i] in store)
    ensures Fetch(store, ids).Success? ==> (|Fetch(store, ids).value| == |ids| &&
      forall i :: 0 <= i < |ids| ==> Fetch(store, ids).value[i] == (ids[i], store[ids[i]]))
  {
    SecretNames.ValidateStrictSucceeds(ids);
  }

  /** A fetch that succeeds, rendered into `secrets.env`, reads back to
      every secret under its short name; those names are shell variable
      names and pairwise distinct, so no line overwrites another. */
  lemma FetchThenRender(store: map<string, string>, ids: seq<string>)
    requires Fetch(store, ids).Success?
    ensures var secrets := Fetch(store, ids).value;
      && EnvFile.ParseEnv(EnvFile.RenderEnv(secrets)) == Some(EnvFile.Renamed(secrets))
      && (forall i :: 0 <= i < |secrets| ==> SecretNames.IsShellName(EnvFile.Renamed(secrets)[i].0))
      && (forall i, j :: 0 <= i < j < |secrets| ==> EnvFile.Renamed(secrets)[i].0 != EnvFile.Renamed(secrets)[j].0)
  {
    EnvFile.StrictNamesRoundTrip(ids, Fetch(store, ids).value);
  }

  // ---------------------------------------------------------------------
  // The fetch tests, as scenarios against a fresh client

  /** Two identifiers that pass the check, such as `path/secret1` and
      `other/path/secret2`: one call with both, and the client's answer
      comes back unchanged. */
  method FetchTwoSecrets(id1: string, value1: string, id2: string, value2: string)
    returns (r: Result<seq<Secret>, FetchError>, calls: seq<seq<string>>)
    requires SecretNames.ValidateStrict([id1, id2]).Success?
    ensures r == Success([(id1, value1), (id2, value2)])
    ensures calls == [[id1, id2]]
  {
    SecretNames.ValidateStrictSucceeds([id1, id2]);
    assert SecretNames.ShortNames([id1, id2])[0] != SecretNames.ShortNames([id1, id2])[1];
    assert id1 != id2;
    var store := map[id1 := value1, id2 := value2];
    var answer := Lookup(store, [id1, id2]);
    assert answer.Success?;
    assert answer.value == [(id1, value1), (id2, value2)];
    var client := new Client(store);
    r := FetchSecrets(client, [id1, id2]);
    calls := client.calls;
  }

  /** The identifiers of the fetch test pass the check. */
  lemma TestIdentifiersPass()
    ensures SecretNames.ValidateStrict(["path" + "/" + "secret1", "other/path" + "/" + "secret2"]).Success?
  {
    assert SecretNames.IsShellName("secret1") && SecretNames.IsShellName("secret2");
    SecretNames.StrictDistinctNamesAcrossPaths("path", "secret1", "other/path", "secret2");
  }

  /** Two identifiers sharing a short name, as in the duplicate test: the
      duplicate error, and no call. */
  method FetchDuplicateNames() returns (r: Result<seq<Secret>, FetchError>, calls: seq<seq<string>>)
    ensures r == Failure(Invalid(SecretNames.DuplicateSecretName))
    ensures calls == []
  {
    var client := new Client(map[]);
    var ids := ["path" + "/" + "secret1", "other/path" + "/" + "secret1"];
    SecretNames.DuplicatePathsExample();
    SecretNames.ValidateStrictDuplicates(ids);
    r := FetchSecrets(client, ids);
    calls := client.calls;
  }

  /** One identifier that is not a shell variable name, as each name of the
      invalid-name test (`hypen-sign`, `8numeric`, ...): the
      unsupported-name error quoting it, and no call. */
  method FetchInvalidName(name: string) returns (r: Result<seq<Secret>, FetchError>, calls: seq<seq<string>>)
    requires '/' !in name && !SecretNames.IsShellName(name)
    ensures r == Failure(Invalid(SecretNames.UnsupportedSecretName(JsonString.Dumps(name))))
    ensures calls == []
  {
    var client := new Client(map[]);
    SecretNames.StrictRejectsSingleName(name);
    r := FetchSecrets(client, [name]);
    calls := client.calls;
  }
}
