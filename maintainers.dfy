/** The maintainer check of the axelmon monitor: for every chain the network
    knows, is the validator's consensus address among that chain's
    maintainers? */
module Maintainers {
  import opened Wrappers
  import opened Addresses
  import Server
  import Metrics

  /** ASCII lower-casing of one character. */
  function LowerChar(c: char): char {
    if 'A' <= c <= 'Z' then (c as int + 32) as char else c
  }

  predicate IsUpper(c: char) {
    'A' <= c <= 'Z'
  }

  /** `strings.ToLower`, restricted to ASCII letters: each upper-case letter
      becomes the lower-case letter at the same place in the alphabet, and
      every other character is kept in place. */
  function ToLower(s: string): (r: string)
    ensures |r| == |s|
    ensures forall i :: 0 <= i < |r| ==> !IsUpper(r[i])
    ensures forall i :: 0 <= i < |s| && !IsUpper(s[i]) ==> r[i] == s[i]
    ensures forall i :: 0 <= i < |s| && IsUpper(s[i]) ==>
              'a' <= r[i] <= 'z' && r[i] as int - 'a' as int == s[i] as int - 'A' as int
  {
    seq(|s|, i requires 0 <= i < |s| => LowerChar(s[i]))
  }

  /** Lower-casing twice is lower-casing once. */
  lemma ToLowerIdempotent(s: string)
    ensures ToLower(ToLower(s)) == ToLower(s)
  {
  }

  /** What the check needs from the outside world: the maintainer query,
      the configured exception set (a Go `map[string]bool`, looked up by the
      lower-cased chain name) and the validator's consensus address. */
  datatype AuditContext = AuditContext(
    getChainMaintainers: string -> Result<seq<Address>>,
    exceptChains: map<string, bool>,
    cons: Address)

  /** A Go map read: a missing key reads as `false`. */
  function Lookup(m: map<string, bool>, key: string): bool {
    key in m && m[key]
  }

  predicate Excepted(ctx: AuditContext, chain: string) {
    Lookup(ctx.exceptChains, ToLower(chain))
  }

  predicate IsMaintainer(maintainers: seq<Address>, cons: Address) {
    exists i :: 0 <= i < |maintainers| && maintainers[i] == cons
  }

  /** The chain answers the maintainer query and lists the validator. */
  predicate MaintainedBy(ctx: AuditContext, chain: string) {
    ctx.getChainMaintainers(chain).Ok? && IsMaintainer(ctx.getChainMaintainers(chain).value, ctx.cons)
  }

  /** The state of the chain loop: the `result` map, the gauge values set,
      the chains queried (in order) and the error that stopped the loop. */
  datatype Audit = Audit(
    result: map<string, bool>,
    gauges: map<string, int>,
    queried: seq<string>,
    err: Option<Error>)

  /** One iteration of the chain loop. An excepted chain is recorded `true`
      without a query; otherwise the query's error stops the loop, and its
      answer sets the entry to true when the validator is listed (or the
      entry was already true) and sets the chain's gauge to 1 or 0. */
  function AuditStep(ctx: AuditContext, a: Audit, chain: string): Audit {
    if Excepted(ctx, chain) then a.(result := a.result[chain := true])
    else
      match ctx.getChainMaintainers(chain)
      case Err(e) => a.(queried := a.queried + [chain], err := Some(e))
      case Ok(maintainers) =>
        var v := Lookup(a.result, chain) || IsMaintainer(maintainers, ctx.cons);
        a.(result := a.result[chain := v],
           gauges := a.gauges[chain := if v then 1 else 0],
           queried := a.queried + [chain])
  }

  /** The chain loop run over `chains` in order, stopping at the first error. */
  function AuditChains(ctx: AuditContext, chains: seq<string>): Audit
    decreases |chains|
  {
    if chains == [] then Audit(map[], map[], [], None)
    else
      var a := AuditChains(ctx, chains[..|chains| - 1]);
      if a.err.Some? then a else AuditStep(ctx, a, chains[|chains| - 1])
  }

  /** The chains that are not excepted, in order. */
  function NonExcepted(ctx: AuditContext, chains: seq<string>): seq<string>
    decreases |chains|
  {
    if chains == [] then []
    else
      var last := chains[|chains| - 1];
      NonExcepted(ctx, chains[..|chains| - 1]) + if Excepted(ctx, last) then [] else [last]
  }

  function Elements(chains: seq<string>): set<string> {
    set i | 0 <= i < |chains| :: chains[i]
  }

  predicate AllTrue(m: map<string, bool>) {
    forall k :: k in m ==> m[k]
  }

  /** Every non-excepted chain before index `i` was answered. */
  predicate AnsweredBefore(ctx: AuditContext, chains: seq<string>, i: int) {
    forall j :: 0 <= j < i && j < |chains| && !Excepted(ctx, chains[j]) ==>
      ctx.getChainMaintainers(chains[j]).Ok?
  }

  lemma ElementsSnoc(chains: seq<string>)
    requires chains != []
    ensures Elements(chains) == Elements(chains[..|chains| - 1]) + {chains[|chains| - 1]}
  {
  }

  lemma AuditChainsSnoc(ctx: AuditContext, chains: seq<string>, i: nat)
    requires i < |chains|
    ensures AuditChains(ctx, chains[..i + 1]) ==
              var a := AuditChains(ctx, chains[..i]);
              if a.err.Some? then a else AuditStep(ctx, a, chains[i])
  {
    assert chains[..i + 1][..i] == chains[..i];
  }

  lemma UnionUpdate(m: map<string, int>, g: map<string, int>, k: string, v: int)
    ensures (m + g)[k := v] == m + g[k := v]
  {
  }

  /** Once the loop has stopped on an error, later chains change nothing. */
  lemma {:induction false} AuditStopsAtError(ctx: AuditContext, chains: seq<string>, k: nat)
    requires k <= |chains|
    requires AuditChains(ctx, chains[..k]).err.Some?
    ensures AuditChains(ctx, chains) == AuditChains(ctx, chains[..k])
    decreases |chains|
  {
    if k < |chains| {
      var init := chains[..|chains| - 1];
      assert init[..k] == chains[..k];
      AuditStopsAtError(ctx, init, k);
    } else {
      assert chains[..k] == chains;
    }
  }

  /** No key outside the chain list appears, and without an error every
      chain of the list has an entry. */
  lemma {:induction false} AuditKeys(ctx: AuditContext, chains: seq<string>)
    ensures AuditChains(ctx, chains).result.Keys <= Elements(chains)
    ensures AuditChains(ctx, chains).err.None? ==>
              AuditChains(ctx, chains).result.Keys == Elements(chains)
    decreases |chains|
  {
    if chains != [] {
      AuditKeys(ctx, chains[..|chains| - 1]);
      ElementsSnoc(chains);
    }
  }

  /** After a failed query only the chains before the failing one have
      entries. */
  lemma AuditKeysBeforeError(ctx: AuditContext, chains: seq<string>, i: int)
    requires 0 <= i < |chains|
    requires !Excepted(ctx, chains[i]) && ctx.getChainMaintainers(chains[i]).Err?
    requires AnsweredBefore(ctx, chains, i)
    ensures AuditChains(ctx, chains).result.Keys <= Elements(chains[..i])
  {
    var pre := chains[..i];
    assert pre[..|pre|] == pre;
    AuditErrors(ctx, pre);
    assert AnsweredBefore(ctx, pre, |pre|) by {
      forall j | 0 <= j < |pre| ensures pre[j] == chains[j] {}
    }
    AuditChainsSnoc(ctx, chains, i);
    AuditStopsAtError(ctx, chains, i + 1);
    AuditKeys(ctx, pre);
  }

  /** An entry is true exactly when its chain is excepted or lists the
      validator among its maintainers. */
  lemma {:induction false} AuditValues(ctx: AuditContext, chains: seq<string>)
    ensures forall c :: c in AuditChains(ctx, chains).result ==>
              AuditChains(ctx, chains).result[c] == (Excepted(ctx, c) || MaintainedBy(ctx, c))
    decreases |chains|
  {
    if chains != [] {
      AuditValues(ctx, chains[..|chains| - 1]);
    }
  }

  /** Gauges are set only for chains that are not excepted, and a chain's
      gauge is 1 exactly when its entry is true and 0 otherwise. */
  lemma {:induction false} AuditGauges(ctx: AuditContext, chains: seq<string>)
    ensures forall c :: c in AuditChains(ctx, chains).gauges ==>
              && !Excepted(ctx, c)
              && c in AuditChains(ctx, chains).result
              && AuditChains(ctx, chains).gauges[c] ==
                   if AuditChains(ctx, chains).result[c] then 1 else 0
    ensures forall c :: c in AuditChains(ctx, chains).result && !Excepted(ctx, c) ==>
              c in AuditChains(ctx, chains).gauges
    decreases |chains|
  {
    if chains != [] {
      AuditGauges(ctx, chains[..|chains| - 1]);
    }
  }

  /** The query is never made for an excepted chain: without an error the
      queried chains are exactly the non-excepted ones, in list order. */
  lemma {:induction false} AuditQueries(ctx: AuditContext, chains: seq<string>)
    ensures forall i :: 0 <= i < |AuditChains(ctx, chains).queried| ==>
              !Excepted(ctx, AuditChains(ctx, chains).queried[i])
    ensures AuditChains(ctx, chains).err.None? ==>
              AuditChains(ctx, chains).queried == NonExcepted(ctx, chains)
    decreases |chains|
  {
    if chains != [] {
      AuditQueries(ctx, chains[..|chains| - 1]);
    }
  }

  /** The loop fails exactly when some non-excepted chain's query fails; the
      error is that of the first such chain, which is the last one queried. */
  lemma {:induction false} AuditErrors(ctx: AuditContext, chains: seq<string>)
    ensures AuditChains(ctx, chains).err.None? <==> AnsweredBefore(ctx, chains, |chains|)
    ensures AuditChains(ctx, chains).err.Some? ==>
              exists i :: && 0 <= i < |chains|
                          && !Excepted(ctx, chains[i])
                          && ctx.getChainMaintainers(chains[i]) == Err(AuditChains(ctx, chains).err.value)
                          && AnsweredBefore(ctx, chains, i)
                          && AuditChains(ctx, chains).queried == NonExcepted(ctx, chains[..i + 1])
    decreases |chains|
  {
    if chains != [] {
      var n := |chains| - 1;
      var init := chains[..n];
      AuditErrors(ctx, init);
      AuditQueries(ctx, init);
      assert forall j :: 0 <= j < n ==> init[j] == chains[j];
      if AuditChains(ctx, init).err.Some? {
        var i :| && 0 <= i < n
                 && !Excepted(ctx, init[i])
                 && ctx.getChainMaintainers(init[i]) == Err(AuditChains(ctx, init).err.value)
                 && AnsweredBefore(ctx, init, i)
                 && AuditChains(ctx, init).queried == NonExcepted(ctx, init[..i + 1]);
        assert init[..i + 1] == chains[..i + 1];
        assert !AnsweredBefore(ctx, chains, |chains|);
      } else if !Excepted(ctx, chains[n]) && ctx.getChainMaintainers(chains[n]).Err? {
        assert chains[..n + 1] == chains;
        assert !AnsweredBefore(ctx, chains, |chains|);
      }
    }
  }

  /** For a completed loop the overall status is true exactly when every
      listed chain is excepted or maintained by the validator; an empty
      chain list gives true. */
  lemma AuditStatus(ctx: AuditContext, chains: seq<string>)
    requires AuditChains(ctx, chains).err.None?
    ensures AllTrue(AuditChains(ctx, chains).result) <==>
              forall i :: 0 <= i < |chains| ==> Excepted(ctx, chains[i]) || MaintainedBy(ctx, chains[i])
  {
    AuditKeys(ctx, chains);
    AuditValues(ctx, chains);
    var m := AuditChains(ctx, chains).result;
    if AllTrue(m) {
      forall i | 0 <= i < |chains| ensures Excepted(ctx, chains[i]) || MaintainedBy(ctx, chains[i]) {
        assert chains[i] in Elements(chains);
      }
    }
  }

  /** Three chains A, B and C with C excepted (configured in lower case),
      the validator listed by A only: A and C pass, B fails, and so does
      the overall status. */
  lemma AuditExample(cons: Address, other: Address)
    requires other != cons
    ensures var ctx := AuditContext(
                c => if c == "A" then Ok([other, cons]) else Ok([other]),
                map["c" := true], cons);
            var a := AuditChains(ctx, ["A", "B", "C"]);
            && a.err == None
            && a.result == map["A" := true, "B" := false, "C" := true]
            && a.queried == ["A", "B"]
            && !AllTrue(a.result)
  {
    var ctx := AuditContext(
      c => if c == "A" then Ok([other, cons]) else Ok([other]),
      map["c" := true], cons);
    var chains := ["A", "B", "C"];
    assert ToLower("A") == "a" && ToLower("B") == "b" && ToLower("C") == "c";
    assert !Excepted(ctx, "A") && !Excepted(ctx, "B") && Excepted(ctx, "C");
    assert IsMaintainer([other, cons], cons) by { assert [other, cons][1] == cons; }
    assert !IsMaintainer([other], cons);
    assert chains[..0] == [] && chains[..3] == chains;
    AuditChainsSnoc(ctx, chains, 0);
    AuditChainsSnoc(ctx, chains, 1);
    AuditChainsSnoc(ctx, chains, 2);
    var a1 := AuditChains(ctx, chains[..1]);
    assert a1 == Audit(map["A" := true], map["A" := 1], ["A"], None);
    var a2 := AuditChains(ctx, chains[..2]);
    assert a2.result == map["A" := true, "B" := false] && a2.queried == ["A", "B"] && a2.err == None;
    assert !AuditChains(ctx, chains).result["B"];
  }

  /** The maintainer loop of checkMaintainers: stops at the first entry equal
      to the consensus address. */
  method FindMaintainer(maintainers: seq<Address>, cons: Address) returns (listed: bool)
    ensures listed == IsMaintainer(maintainers, cons)
  {
    var j := 0;
    while j < |maintainers|
      invariant 0 <= j <= |maintainers|
      invariant forall t :: 0 <= t < j ==> maintainers[t] != cons
    {
      if maintainers[j] == cons {
        return true;
      }
      j := j + 1;
    }
    return false;
  }

  /** The loop over the result map that clears `check` on a false entry;
      the keys are visited in an unspecified order, as Go's map range does. */
  method Conjunction(result: map<string, bool>) returns (check: bool)
    ensures check == AllTrue(result)
  {
    check := true;
    var keys := result.Keys;
    while keys != {}
      invariant keys <= result.Keys
      invariant check <==> forall k :: k in result && k !in keys ==> result[k]
      decreases keys
    {
      var k :| k in keys;
      if !result[k] {
        check := false;
      }
      keys := keys - {k};
    }
  }

  /** checkMaintainers, from the chain list on. A failed chain-list query
      changes nothing; a failed maintainer query returns its error after the
      gauges of the chains before it were set, and publishes nothing;
      otherwise the map and its conjunction are published. `queried` records
      the chains passed to `GetChainMaintainers`, in order. */
  method CheckMaintainers(state: Server.GlobalState, registry: Metrics.Registry,
                          ctx: AuditContext, chains: Result<seq<string>>)
    returns (err: Option<Error>, ghost queried: seq<string>)
    modifies state, registry
    ensures state.heartbeatMissed == old(state.heartbeatMissed)
    ensures state.heartbeatStatus == old(state.heartbeatStatus)
    ensures registry.heartbeatsMissed == old(registry.heartbeatsMissed)
    ensures registry.heartbeatsSuccess == old(registry.heartbeatsSuccess)
    ensures chains.Err? ==> queried == []
    ensures chains.Ok? ==> queried == AuditChains(ctx, chains.value).queried
    ensures chains.Err? ==>
              && err == Some(chains.error)
              && state.maintainers == old(state.maintainers)
              && state.maintainersStatus == old(state.maintainersStatus)
              && registry.maintainersGauge == old(registry.maintainersGauge)
    ensures chains.Ok? ==>
              var a := AuditChains(ctx, chains.value);
              && err == a.err
              && registry.maintainersGauge == old(registry.maintainersGauge) + a.gauges
              && (a.err.Some? ==>
                    state.maintainers == old(state.maintainers) &&
                    state.maintainersStatus == old(state.maintainersStatus))
              && (a.err.None? ==>
                    state.maintainers == a.result &&
                    state.maintainersStatus == AllTrue(a.result))
  {
    queried := [];
    if chains.Err? {
      err := Some(chains.error);
      return;
    }
    var cs := chains.value;
    var result: map<string, bool> := map[];
    for i := 0 to |cs|
      invariant AuditChains(ctx, cs[..i]).err.None?
      invariant AuditChains(ctx, cs[..i]).result == result
      invariant AuditChains(ctx, cs[..i]).queried == queried
      invariant registry.maintainersGauge ==
                  old(registry.maintainersGauge) + AuditChains(ctx, cs[..i]).gauges
      invariant registry.heartbeatsMissed == old(registry.heartbeatsMissed)
      invariant registry.heartbeatsSuccess == old(registry.heartbeatsSuccess)
      invariant unchanged(state)
    {
      var chain := cs[i];
      AuditChainsSnoc(ctx, cs, i);
      ghost var a := AuditChains(ctx, cs[..i]);
      var key := ToLower(chain);
      if key in ctx.exceptChains && ctx.exceptChains[key] {
        result := result[chain := true];
        continue;
      }
      queried := queried + [chain];
      var fetched := ctx.getChainMaintainers(chain);
      if fetched.Err? {
        AuditStopsAtError(ctx, cs, i + 1);
        err := Some(fetched.error);
        return;
      }
      var maintainers := fetched.value;
      var listed := FindMaintainer(maintainers, ctx.cons);
      if listed {
        result := result[chain := true];
      }
      if !Lookup(result, chain) {
        result := result[chain := false];
      }
      var maintainerInNetwork := if result[chain] then 1 else 0;
      UnionUpdate(old(registry.maintainersGauge), a.gauges, chain, maintainerInNetwork);
      registry.maintainersGauge := registry.maintainersGauge[chain := maintainerInNetwork];
    }
    assert cs[..|cs|] == cs;

    var check := Conjunction(result);

    state.maintainers := result;
    if check {
      state.maintainersStatus := true;
    } else {
      state.maintainersStatus := false;
    }
    err := None;
  }
}
