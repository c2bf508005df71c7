/** The proxy variables of the process environment: snapshot, injection and restoration. */
module Environments {
  import opened Bytes
  import opened Strings

  /** `process.env`; names are told apart by case. */
  type Env = map<string, string>

  type Saved = map<string, Option<string>>

  const TARGET_KEYS: seq<string> := ["HTTP_PROXY", "HTTPS_PROXY", "ALL_PROXY", "http_proxy", "https_proxy", "all_proxy"]
  const PROXY_ENV_KEYS: seq<string> := TARGET_KEYS + ["NO_PROXY", "no_proxy"]

  function Get(env: Env, key: string): Option<string> {
    if key in env then Some(env[key]) else None
  }

  /** `env[key] = value`, or `delete env[key]` where there is no value. */
  function Put(env: Env, key: string, value: Option<string>): Env {
    if value.Some? then env[key := value.value] else env - {key}
  }

  function Target(port: nat): string {
    "http://127.0.0.1:" + Decimal(port)
  }

  /** What the proxy variables hold. */
  function Snapshot(env: Env): Saved {
    map key: string | key in PROXY_ENV_KEYS :: Get(env, key)
  }

  /** The variables that are not the proxy's. */
  function Others(env: Env): Env {
    map key | key in env && key !in PROXY_ENV_KEYS :: env[key]
  }

  /** All traffic variables name the port. */
  predicate Points(env: Env, port: nat) {
    forall key :: key in TARGET_KEYS ==> Get(env, key) == Some(Target(port))
  }

  /** The environment with the proxy variables put back; a variable that was not saved is removed. */
  function Restored(env: Env, saved: Saved): Env {
    Others(env) + map key: string | key in PROXY_ENV_KEYS && key in saved && saved[key].Some? :: saved[key].value
  }

  /** The environment with the proxy variables pointed at a port. */
  function Injected(env: Env, port: nat, noProxy: string): Env {
    Others(env) + (map key: string | key in TARGET_KEYS :: Target(port)) + map["NO_PROXY" := noProxy, "no_proxy" := noProxy]
  }

  ghost predicate Complete(saved: Saved) {
    forall key: string :: key in saved <==> key in PROXY_ENV_KEYS
  }

  lemma RestoredHolds(env: Env, saved: Saved)
    requires Complete(saved)
    ensures Snapshot(Restored(env, saved)) == saved && Others(Restored(env, saved)) == Others(env)
  {
  }

  lemma InjectedHolds(env: Env, port: nat, noProxy: string)
    ensures Points(Injected(env, port, noProxy), port) && Others(Injected(env, port, noProxy)) == Others(env)
    ensures Get(Injected(env, port, noProxy), "NO_PROXY") == Get(Injected(env, port, noProxy), "no_proxy") == Some(noProxy)
  {
  }

  /** The variables of an injected environment by name: six name the local port, two hold the exceptions, and no other is
      touched. */
  lemma InjectedVariables(env: Env, port: nat, noProxy: string, key: string)
    ensures Get(Injected(env, port, noProxy), key) ==
              if key in {"HTTP_PROXY", "HTTPS_PROXY", "ALL_PROXY", "http_proxy", "https_proxy", "all_proxy"}
              then Some("http://127.0.0.1:" + Decimal(port))
              else if key in {"NO_PROXY", "no_proxy"} then Some(noProxy) else Get(env, key)
  {
    assert key in TARGET_KEYS <==> key in {"HTTP_PROXY", "HTTPS_PROXY", "ALL_PROXY", "http_proxy", "https_proxy", "all_proxy"};
    assert key in PROXY_ENV_KEYS <==> key in TARGET_KEYS || key in {"NO_PROXY", "no_proxy"};
  }

  /** Putting a snapshot back undoes an injection, whatever was written to other variables in between. */
  lemma RestoreUndoesInject(env: Env, port: nat, noProxy: string, later: Env)
    requires Snapshot(later) == Snapshot(Injected(env, port, noProxy))
    ensures Snapshot(Restored(later, Snapshot(env))) == Snapshot(env)
    ensures Others(Restored(later, Snapshot(env))) == Others(later)
    ensures Others(later) == Others(env) ==> Restored(later, Snapshot(env)) == env
  {
    RestoredHolds(later, Snapshot(env));
    if Others(later) == Others(env) {
      SameEnv(Restored(later, Snapshot(env)), env);
    }
  }

  /** An environment is its proxy variables and its other variables. */
  lemma SameEnv(a: Env, b: Env)
    requires Snapshot(a) == Snapshot(b) && Others(a) == Others(b)
    ensures a == b
  {
    forall key: string
      ensures Get(a, key) == Get(b, key)
    {
      if key in PROXY_ENV_KEYS {
        assert Snapshot(a)[key] == Snapshot(b)[key];
      } else {
        assert key in a <==> key in Others(a);
        assert key in b <==> key in Others(b);
      }
    }
    assert forall key :: key in a <==> Get(a, key).Some?;
    assert forall key :: key in b <==> Get(b, key).Some?;
    assert forall key :: key in a ==> Get(a, key) == Some(a[key]);
    assert forall key :: key in b ==> Get(b, key) == Some(b[key]);
  }

  class Process {
    var env: Env

    method SnapshotEnv() returns (saved: Saved)
      ensures saved == Snapshot(env)
    {
      saved := map[];
      for k := 0 to |PROXY_ENV_KEYS|
        invariant saved.Keys == set j | 0 <= j < k :: PROXY_ENV_KEYS[j]
        invariant forall key :: key in saved ==> saved[key] == Get(env, key)
      {
        saved := saved[PROXY_ENV_KEYS[k] := Get(env, PROXY_ENV_KEYS[k])];
      }
      forall key
        ensures key in saved <==> key in PROXY_ENV_KEYS
      {
      }
    }

    /** Points the proxy variables at the port; the result is what the disposer puts back. */
    method Inject(port: nat, noProxy: string) returns (saved: Saved)
      modifies this
      ensures saved == Snapshot(old(env)) && env == Injected(old(env), port, noProxy)
    {
      saved := SnapshotEnv();
      var target := Target(port);
      for k := 0 to |TARGET_KEYS|
        invariant forall j :: 0 <= j < k ==> Get(env, TARGET_KEYS[j]) == Some(target)
        invariant Others(env) == Others(old(env))
      {
        PutIsLocal(env, TARGET_KEYS[k], Some(target));
        env := Put(env, TARGET_KEYS[k], Some(target));
      }
      PutIsLocal(env, "NO_PROXY", Some(noProxy));
      env := Put(env, "NO_PROXY", Some(noProxy));
      PutIsLocal(env, "no_proxy", Some(noProxy));
      env := Put(env, "no_proxy", Some(noProxy));
      InjectedOnly(env, old(env), port, noProxy);
    }

    /** The disposer. */
    method Restore(saved: Saved)
      requires Complete(saved)
      modifies this
      ensures env == Restored(old(env), saved)
    {
      for k := 0 to |PROXY_ENV_KEYS|
        invariant forall j :: 0 <= j < k ==> Get(env, PROXY_ENV_KEYS[j]) == saved[PROXY_ENV_KEYS[j]]
        invariant Others(env) == Others(old(env))
      {
        var key := PROXY_ENV_KEYS[k];
        PutIsLocal(env, key, saved[key]);
        env := Put(env, key, saved[key]);
      }
      RestoredHolds(old(env), saved);
      SameEnv(env, Restored(old(env), saved));
    }
  }

  /** Nothing else is an injected environment. */
  lemma InjectedOnly(after: Env, before: Env, port: nat, noProxy: string)
    requires Points(after, port) && Others(after) == Others(before)
    requires Get(after, "NO_PROXY") == Get(after, "no_proxy") == Some(noProxy)
    ensures after == Injected(before, port, noProxy)
  {
    InjectedHolds(before, port, noProxy);
    SameEnv(after, Injected(before, port, noProxy));
  }

  lemma PutIsLocal(env: Env, key: string, value: Option<string>)
    ensures Get(Put(env, key, value), key) == value
    ensures forall k :: k != key ==> Get(Put(env, key, value), k) == Get(env, k)
    ensures key in PROXY_ENV_KEYS ==> Others(Put(env, key, value)) == Others(env)
    ensures key !in PROXY_ENV_KEYS ==> Snapshot(Put(env, key, value)) == Snapshot(env)
  {
  }
}
