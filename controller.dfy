/**
 * SecretsRefreshReconciler: maps a changed Secret to reconcile requests
 * through the SecretsRefresh policies, and on reconcile restarts every
 * Deployment in the Secret's namespace that refers to it.
 *
 * The object store the client talks to is held in the reconciler's fields:
 * the Namespace and SecretsRefresh lists in the order a List call returns
 * them, and the Deployments by key. Whether a List or Patch call fails is
 * an input.
 */
module Controller {
  import opened Wrappers
  import opened Kube
  import opened SecretUsage
  import opened Restart

  /** The operator's namespace when POD_NAMESPACE is unset or empty. */
  const DefaultOperatorNamespace: string := "traktor-system"

  /** The operator's own namespace, from the value of POD_NAMESPACE. */
  function OperatorNamespace(podNamespace: string): (r: string)
    ensures r != ""
    ensures podNamespace != "" ==> r == podNamespace
    ensures podNamespace == "" ==> r == DefaultOperatorNamespace
  {
    if podNamespace == "" then DefaultOperatorNamespace else podNamespace
  }

  // Namespace filtering.

  /** The namespaces whose labels match, in list order. */
  function MatchingNamespaces(sel: LabelSelector, nss: seq<Namespace>): seq<Namespace>
  {
    if |nss| == 0 then []
    else (if SelectorMatches(sel, nss[0].meta.labels) then [nss[0]] else []) + MatchingNamespaces(sel, nss[1..])
  }

  /** What getFilteredNamespaces returns, given the listed namespaces and whether the List fails. */
  function NamespaceFilterResult(selector: Option<LabelSelector>, listed: seq<Namespace>, listFails: bool): Result<seq<Namespace>, Error>
  {
    match selector
    case None => if listFails then Failure(ListFailed) else Success(listed)
    case Some(sel) =>
      if !ValidSelector(sel) then Failure(InvalidNamespaceSelector)
      else if listFails then Failure(ListFailed)
      else Success(MatchingNamespaces(sel, listed))
  }

  /** Filtering distributes over concatenation: it keeps the relative order of what it keeps. */
  lemma {:induction false} MatchingNamespacesAppend(sel: LabelSelector, a: seq<Namespace>, b: seq<Namespace>)
    ensures MatchingNamespaces(sel, a + b) == MatchingNamespaces(sel, a) + MatchingNamespaces(sel, b)
    decreases |a|
  {
    if |a| > 0 {
      assert (a + b)[0] == a[0] && (a + b)[1..] == a[1..] + b;
      MatchingNamespacesAppend(sel, a[1..], b);
    } else {
      assert a + b == b;
    }
  }

  /** A namespace is kept exactly when it is listed and its labels match. */
  lemma {:induction false} MatchingNamespacesMembers(sel: LabelSelector, nss: seq<Namespace>)
    ensures forall n :: n in MatchingNamespaces(sel, nss) <==> n in nss && SelectorMatches(sel, n.meta.labels)
    ensures |MatchingNamespaces(sel, nss)| <= |nss|
    decreases |nss|
  {
    if |nss| > 0 {
      MatchingNamespacesMembers(sel, nss[1..]);
      assert nss == [nss[0]] + nss[1..];
    }
  }

  /** When every namespace matches, the filter returns the whole list. */
  lemma {:induction false} MatchingNamespacesAll(sel: LabelSelector, nss: seq<Namespace>)
    requires forall i :: 0 <= i < |nss| ==> SelectorMatches(sel, nss[i].meta.labels)
    ensures MatchingNamespaces(sel, nss) == nss
    decreases |nss|
  {
    if |nss| > 0 {
      MatchingNamespacesAll(sel, nss[1..]);
      assert nss == [nss[0]] + nss[1..];
    }
  }

  /**
   * getFilteredNamespaces, as a whole: a nil selector yields every namespace;
   * an invalid one is an error before anything is listed; otherwise the
   * list is filtered by the selector.
   */
  lemma NamespaceFilterOutcomes(selector: Option<LabelSelector>, listed: seq<Namespace>, listFails: bool)
    ensures selector.None? && !listFails ==> NamespaceFilterResult(selector, listed, listFails) == Success(listed)
    ensures selector.Some? && !ValidSelector(selector.value) ==>
      NamespaceFilterResult(selector, listed, listFails) == Failure(InvalidNamespaceSelector)
    ensures NamespaceFilterResult(selector, listed, listFails).Failure? <==>
      listFails || (selector.Some? && !ValidSelector(selector.value))
    ensures NamespaceFilterResult(selector, listed, listFails).Success? ==>
      forall n :: n in NamespaceFilterResult(selector, listed, listFails).value <==>
        n in listed && (selector.None? || SelectorMatches(selector.value, n.meta.labels))
  {
    if selector.Some? {
      MatchingNamespacesMembers(selector.value, listed);
    }
  }

  // Mapping a changed Secret to requests.

  ghost predicate HasNamespaceNamed(nss: seq<Namespace>, name: string)
  {
    exists i :: 0 <= i < |nss| && nss[i].meta.name == name
  }

  /**
   * Whether one policy asks for the Secret: its namespace filtering succeeded,
   * the Secret's namespace is among the result, and the secret selector is
   * absent, or valid and matching the Secret's labels.
   */
  ghost predicate PolicyWantsSecret(sr: SecretsRefresh, secret: Secret, filtered: Result<seq<Namespace>, Error>)
  {
    && filtered.Success?
    && HasNamespaceNamed(filtered.value, secret.meta.namespace)
    && (sr.secretSelector.None?
        || (ValidSelector(sr.secretSelector.value) && SelectorMatches(sr.secretSelector.value, secret.meta.labels)))
  }

  /** The request every interested policy contributes: the Secret's own key. */
  function RequestFor(secret: Secret): Request
  {
    Request(ObjectKey(secret.meta.namespace, secret.meta.name))
  }

  ghost predicate UniqueNamespaceNames(nss: seq<Namespace>)
  {
    forall i, j :: 0 <= i < j < |nss| ==> nss[i].meta.name != nss[j].meta.name
  }

  /**
   * In a cluster where namespace names are unique and the Secret's namespace
   * ns is listed, a policy asks for the Secret exactly when its namespace
   * listing succeeds, its namespace selector is absent or valid and matches
   * ns's labels, and its secret selector is absent or valid and matches the
   * Secret's labels.
   */
  lemma PolicyWantsSecretIff(sr: SecretsRefresh, secret: Secret, listed: seq<Namespace>, listFails: bool, ns: Namespace)
    requires UniqueNamespaceNames(listed)
    requires ns in listed && ns.meta.name == secret.meta.namespace
    ensures PolicyWantsSecret(sr, secret, NamespaceFilterResult(sr.namespaceSelector, listed, listFails)) <==>
      && !listFails
      && (sr.namespaceSelector.None?
          || (ValidSelector(sr.namespaceSelector.value) && SelectorMatches(sr.namespaceSelector.value, ns.meta.labels)))
      && (sr.secretSelector.None?
          || (ValidSelector(sr.secretSelector.value) && SelectorMatches(sr.secretSelector.value, secret.meta.labels)))
  {
    var filtered := NamespaceFilterResult(sr.namespaceSelector, listed, listFails);
    NamespaceFilterOutcomes(sr.namespaceSelector, listed, listFails);
    if filtered.Success? && HasNamespaceNamed(filtered.value, secret.meta.namespace) {
      var i :| 0 <= i < |filtered.value| && filtered.value[i].meta.name == secret.meta.namespace;
      var n := filtered.value[i];
      assert n in filtered.value;
      var k :| 0 <= k < |listed| && listed[k] == n;
      var m :| 0 <= m < |listed| && listed[m] == ns;
      assert k == m;
    }
    if filtered.Success? && ns in filtered.value {
      var i :| 0 <= i < |filtered.value| && filtered.value[i] == ns;
      assert HasNamespaceNamed(filtered.value, secret.meta.namespace);
    }
  }

  /** A Secret in a namespace no List returns is wanted by no policy. */
  lemma UnlistedNamespaceNeverWanted(sr: SecretsRefresh, secret: Secret, listed: seq<Namespace>, listFails: bool)
    requires !HasNamespaceNamed(listed, secret.meta.namespace)
    ensures !PolicyWantsSecret(sr, secret, NamespaceFilterResult(sr.namespaceSelector, listed, listFails))
  {
    var filtered := NamespaceFilterResult(sr.namespaceSelector, listed, listFails);
    NamespaceFilterOutcomes(sr.namespaceSelector, listed, listFails);
    if filtered.Success? {
      forall i | 0 <= i < |filtered.value| ensures filtered.value[i].meta.name != secret.meta.namespace {
        assert filtered.value[i] in filtered.value;
        var k :| 0 <= k < |listed| && listed[k] == filtered.value[i];
      }
    }
  }

  // The effect of one reconcile on the Deployment store.

  function NamespaceKeys(store: map<ObjectKey, Deployment>, ns: string): set<ObjectKey>
  {
    set k | k in store && k.namespace == ns
  }

  /** The Deployments in ns that refer to the Secret and whose patch goes through. */
  function RestartedKeys(store: map<ObjectKey, Deployment>, ns: string, secretName: string, patchFails: set<ObjectKey>): (r: set<ObjectKey>)
    ensures r <= NamespaceKeys(store, ns)
  {
    set k | k in store && k.namespace == ns && DeploymentUsesSecret(store[k], secretName) && k !in patchFails
  }

  /** The store after the batch: exactly the Deployments of RestartedKeys carry the new annotation. */
  function AfterRestarts(store: map<ObjectKey, Deployment>, ns: string, secretName: string,
                         patchFails: set<ObjectKey>, clock: ObjectKey -> Timestamp): map<ObjectKey, Deployment>
  {
    map k | k in store :: if k in RestartedKeys(store, ns, secretName, patchFails) then Restarted(store[k], clock(k)) else store[k]
  }

  /**
   * Only Deployments in ns that refer to the Secret change, and those only in
   * their restartedAt annotation; every key stays and keeps pointing at an
   * object of that name.
   */
  lemma AfterRestartsChangesOnlyUsers(store: map<ObjectKey, Deployment>, ns: string, secretName: string,
                                     patchFails: set<ObjectKey>, clock: ObjectKey -> Timestamp)
    ensures AfterRestarts(store, ns, secretName, patchFails, clock).Keys == store.Keys
    ensures forall k :: k in store && (k.namespace != ns || !DeploymentUsesSecret(store[k], secretName)) ==>
      AfterRestarts(store, ns, secretName, patchFails, clock)[k] == store[k]
    ensures forall k :: k in store && k in patchFails ==>
      AfterRestarts(store, ns, secretName, patchFails, clock)[k] == store[k]
    ensures forall k :: k in store && k.namespace == ns && DeploymentUsesSecret(store[k], secretName) && k !in patchFails ==>
      AfterRestarts(store, ns, secretName, patchFails, clock)[k] == Restarted(store[k], clock(k))
  {
  }

  /** One more failing patch changes the outcome for that Deployment only. */
  lemma FailedPatchIsolated(store: map<ObjectKey, Deployment>, ns: string, secretName: string,
                            patchFails: set<ObjectKey>, failing: ObjectKey, clock: ObjectKey -> Timestamp)
    ensures forall k :: k in store && k != failing ==>
      AfterRestarts(store, ns, secretName, patchFails + {failing}, clock)[k] == AfterRestarts(store, ns, secretName, patchFails, clock)[k]
    ensures |RestartedKeys(store, ns, secretName, patchFails + {failing})| <= |RestartedKeys(store, ns, secretName, patchFails)|
  {
    var before := RestartedKeys(store, ns, secretName, patchFails);
    var after := RestartedKeys(store, ns, secretName, patchFails + {failing});
    assert after == before - {failing};
  }

  lemma {:induction false} SubsetCardinality<T>(a: set<T>, b: set<T>)
    requires a <= b
    ensures |a| <= |b|
    decreases |b|
  {
    if a != {} {
      var x :| x in a;
      SubsetCardinality(a - {x}, b - {x});
    }
  }

  /** The keys of a listed batch of Deployments. */
  function KeySet(ds: seq<Deployment>): set<ObjectKey>
  {
    set i | 0 <= i < |ds| :: ds[i].Key()
  }

  lemma KeySetHas(ds: seq<Deployment>, i: int)
    requires 0 <= i < |ds|
    ensures ds[i].Key() in KeySet(ds)
  {
  }

  lemma KeySetSnoc(ds: seq<Deployment>, d: Deployment)
    ensures KeySet(ds + [d]) == KeySet(ds) + {d.Key()}
  {
    var e := ds + [d];
    assert e[|ds|] == d;
    forall k | k in KeySet(ds) ensures k in KeySet(e) {
      var i :| 0 <= i < |ds| && ds[i].Key() == k;
      assert e[i] == ds[i];
    }
  }

  /** The store part way through the batch: the targets among `done` are restarted. */
  function PartlyRestarted(store: map<ObjectKey, Deployment>, targets: set<ObjectKey>, done: set<ObjectKey>,
                           clock: ObjectKey -> Timestamp): map<ObjectKey, Deployment>
  {
    map k | k in store :: if k in targets && k in done then Restarted(store[k], clock(k)) else store[k]
  }

  lemma PartlyRestartedStep(store: map<ObjectKey, Deployment>, targets: set<ObjectKey>, done: set<ObjectKey>,
                            key: ObjectKey, clock: ObjectKey -> Timestamp)
    requires key in store
    ensures key !in done ==> PartlyRestarted(store, targets, done, clock)[key] == store[key]
    ensures key in targets ==>
      PartlyRestarted(store, targets, done + {key}, clock)
        == PartlyRestarted(store, targets, done, clock)[key := Restarted(store[key], clock(key))]
    ensures key !in targets ==>
      PartlyRestarted(store, targets, done + {key}, clock) == PartlyRestarted(store, targets, done, clock)
  {
  }

  lemma IntersectStep(targets: set<ObjectKey>, done: set<ObjectKey>, key: ObjectKey)
    requires key !in done
    ensures key !in targets * done
    ensures key in targets ==> targets * (done + {key}) == (targets * done) + {key}
    ensures key !in targets ==> targets * (done + {key}) == targets * done
  {
  }

  /** How many Deployments of a batch carry a target key. */
  function CountTargets(items: seq<Deployment>, targets: set<ObjectKey>): nat
  {
    if |items| == 0 then 0
    else CountTargets(items[..|items| - 1], targets) + (if items[|items| - 1].Key() in targets then 1 else 0)
  }

  /** Over a batch with distinct keys, the count is the number of targets among its keys. */
  lemma {:induction false} CountTargetsIsCardinality(items: seq<Deployment>, targets: set<ObjectKey>)
    requires DistinctKeys(items)
    ensures CountTargets(items, targets) == |targets * KeySet(items)|
    decreases |items|
  {
    if |items| == 0 {
      assert KeySet(items) == {};
    } else {
      var n := |items| - 1;
      var key := items[n].Key();
      DistinctPrefix(items, n);
      CountTargetsIsCardinality(items[..n], targets);
      BatchStep(items, n);
      assert items[..n + 1] == items;
      var before := targets * KeySet(items[..n]);
      IntersectStep(targets, KeySet(items[..n]), key);
      if key in targets {
        assert |before + {key}| == |before| + 1;
      }
    }
  }

  lemma DistinctPrefix(items: seq<Deployment>, n: nat)
    requires DistinctKeys(items)
    requires n <= |items|
    ensures DistinctKeys(items[..n])
  {
    var prefix := items[..n];
    forall i, j | 0 <= i < j < |prefix| ensures prefix[i].Key() != prefix[j].Key() {
      assert prefix[i] == items[i] && prefix[j] == items[j];
    }
  }

  /**
   * A complete List result for ns: every Deployment stored under ns, each
   * once, as stored.
   */
  ghost predicate IsListing(store: map<ObjectKey, Deployment>, ns: string, items: seq<Deployment>)
  {
    && (forall i :: 0 <= i < |items| ==>
         items[i].Key() in store && store[items[i].Key()] == items[i] && items[i].Key().namespace == ns)
    && (forall i, j :: 0 <= i < j < |items| ==> items[i].Key() != items[j].Key())
    && NamespaceKeys(store, ns) == KeySet(items)
  }

  /** The Deployments of ns listed so far, each once and as stored; `remaining` holds the rest. */
  ghost predicate ListingSoFar(store: map<ObjectKey, Deployment>, ns: string, remaining: set<ObjectKey>, items: seq<Deployment>)
  {
    && remaining <= NamespaceKeys(store, ns)
    && (forall i :: 0 <= i < |items| ==>
         items[i].Key() in store && store[items[i].Key()] == items[i] && items[i].Key().namespace == ns)
    && (forall i, j :: 0 <= i < j < |items| ==> items[i].Key() != items[j].Key())
    && remaining !! KeySet(items)
    && NamespaceKeys(store, ns) == remaining + KeySet(items)
  }

  lemma ListingStart(store: map<ObjectKey, Deployment>, ns: string)
    ensures ListingSoFar(store, ns, NamespaceKeys(store, ns), [])
  {
    assert KeySet([]) == {};
  }

  lemma ListingComplete(store: map<ObjectKey, Deployment>, ns: string, items: seq<Deployment>)
    requires ListingSoFar(store, ns, {}, items)
    ensures IsListing(store, ns, items)
  {
  }

  lemma ListingStep(store: map<ObjectKey, Deployment>, ns: string, remaining: set<ObjectKey>, items: seq<Deployment>, k: ObjectKey)
    requires forall key :: key in store ==> store[key].Key() == key
    requires ListingSoFar(store, ns, remaining, items)
    requires k in remaining
    ensures k in store
    ensures ListingSoFar(store, ns, remaining - {k}, items + [store[k]])
  {
    var d := store[k];
    forall i | 0 <= i < |items| ensures items[i].Key() != k {
      KeySetHas(items, i);
    }
    KeySetSnoc(items, d);
  }

  /** Keys that appear at most once in a batch. */
  ghost predicate DistinctKeys(items: seq<Deployment>)
  {
    forall i, j :: 0 <= i < j < |items| ==> items[i].Key() != items[j].Key()
  }

  /** Handling the i-th Deployment of a batch adds a key not handled before. */
  lemma BatchStep(items: seq<Deployment>, i: int)
    requires DistinctKeys(items)
    requires 0 <= i < |items|
    ensures items[i].Key() !in KeySet(items[..i])
    ensures KeySet(items[..i + 1]) == KeySet(items[..i]) + {items[i].Key()}
  {
    var key := items[i].Key();
    forall m | 0 <= m < i ensures items[..i][m].Key() != key {
      assert items[..i][m] == items[m];
    }
    assert items[..i + 1] == items[..i] + [items[i]];
    KeySetSnoc(items[..i], items[i]);
  }

  /** In a complete listing, a listed Deployment is a target exactly when it refers to the Secret and its patch goes through. */
  lemma ListedTargets(store: map<ObjectKey, Deployment>, ns: string, secretName: string, patchFails: set<ObjectKey>,
                      items: seq<Deployment>)
    requires IsListing(store, ns, items)
    ensures forall i :: 0 <= i < |items| ==> items[i].Key() in store && store[items[i].Key()] == items[i]
    ensures forall i :: 0 <= i < |items| ==>
      (items[i].Key() in RestartedKeys(store, ns, secretName, patchFails) <==>
        DeploymentUsesSecret(items[i], secretName) && items[i].Key() !in patchFails)
    ensures DistinctKeys(items)
  {
  }

  /** Once every listed Deployment is handled, the store is AfterRestarts. */
  lemma BatchDone(store: map<ObjectKey, Deployment>, ns: string, secretName: string, patchFails: set<ObjectKey>,
                  clock: ObjectKey -> Timestamp)
    ensures
      var targets := RestartedKeys(store, ns, secretName, patchFails);
      && PartlyRestarted(store, targets, NamespaceKeys(store, ns), clock) == AfterRestarts(store, ns, secretName, patchFails, clock)
      && targets * NamespaceKeys(store, ns) == targets
      && |targets| <= |NamespaceKeys(store, ns)|
  {
    var targets := RestartedKeys(store, ns, secretName, patchFails);
    SubsetCardinality(targets, NamespaceKeys(store, ns));
  }

  class SecretsRefreshReconciler {
    var namespaces: seq<Namespace>
    var policies: seq<SecretsRefresh>
    var deployments: map<ObjectKey, Deployment>

    /** Every stored Deployment sits under its own namespace and name. */
    ghost predicate Valid()
      reads this
    {
      forall k :: k in deployments ==> deployments[k].Key() == k
    }

    constructor (namespaces: seq<Namespace>, policies: seq<SecretsRefresh>, deployments: map<ObjectKey, Deployment>)
      requires forall k :: k in deployments ==> deployments[k].Key() == k
      ensures Valid()
      ensures this.namespaces == namespaces && this.policies == policies && this.deployments == deployments
    {
      this.namespaces := namespaces;
      this.policies := policies;
      this.deployments := deployments;
    }

    /** getFilteredNamespaces for one policy; `listFails` says whether its Namespace List call fails. */
    method GetFilteredNamespaces(sr: SecretsRefresh, listFails: bool) returns (r: Result<seq<Namespace>, Error>)
      ensures r == NamespaceFilterResult(sr.namespaceSelector, namespaces, listFails)
    {
      if sr.namespaceSelector.None? {
        if listFails {
          return Failure(ListFailed);
        }
        return Success(namespaces);
      }
      var sel := sr.namespaceSelector.value;
      if !ValidSelector(sel) {
        return Failure(InvalidNamespaceSelector);
      }
      if listFails {
        return Failure(ListFailed);
      }
      var namespaceList := namespaces;
      var filtered: seq<Namespace> := [];
      for i := 0 to |namespaceList|
        invariant filtered == MatchingNamespaces(sel, namespaceList[..i])
      {
        var ns := namespaceList[i];
        MatchingNamespacesAppend(sel, namespaceList[..i], [ns]);
        assert namespaceList[..i + 1] == namespaceList[..i] + [ns];
        if SelectorMatches(sel, ns.meta.labels) {
          filtered := filtered + [ns];
        }
      }
      assert namespaceList[..|namespaceList|] == namespaceList;
      return Success(filtered);
    }

    /**
     * findSecretsRefreshForSecret: one request, keyed by the Secret, for each
     * policy that wants it, in policy order. `listFails` says whether listing
     * the policies fails; `nsListFails` holds the positions of the policies
     * whose Namespace List call fails. `contributors` names the positions of
     * the policies that added a request.
     */
    method FindSecretsRefreshForSecret(secret: Secret, listFails: bool, nsListFails: set<nat>)
      returns (requests: seq<Request>, ghost contributors: seq<nat>)
      ensures listFails ==> requests == []
      ensures |requests| == |contributors| <= |policies|
      ensures forall j :: 0 <= j < |requests| ==> requests[j] == RequestFor(secret)
      ensures forall j, j' :: 0 <= j < j' < |contributors| ==> contributors[j] < contributors[j']
      ensures forall j :: 0 <= j < |contributors| ==> contributors[j] < |policies|
      ensures !listFails ==> forall i :: 0 <= i < |policies| ==>
        (i in contributors <==>
          PolicyWantsSecret(policies[i], secret,
            NamespaceFilterResult(policies[i].namespaceSelector, namespaces, i in nsListFails)))
    {
      requests, contributors := [], [];
      if listFails {
        return;
      }
      var srList := policies;
      for i := 0 to |srList|
        invariant |requests| == |contributors| <= i
        invariant forall j :: 0 <= j < |requests| ==> requests[j] == RequestFor(secret)
        invariant forall j, j' :: 0 <= j < j' < |contributors| ==> contributors[j] < contributors[j']
        invariant forall j :: 0 <= j < |contributors| ==> contributors[j] < i
        invariant forall p :: 0 <= p < i ==>
          (p in contributors <==>
            PolicyWantsSecret(srList[p], secret, NamespaceFilterResult(srList[p].namespaceSelector, namespaces, p in nsListFails)))
      {
        var sr := srList[i];
        var nsResult := GetFilteredNamespaces(sr, i in nsListFails);
        ghost var wanted := PolicyWantsSecret(sr, secret, nsResult);
        if nsResult.Failure? {
          continue;
        }
        var filtered := nsResult.value;

        var namespaceMatches := false;
        var j := 0;
        while j < |filtered|
          invariant 0 <= j <= |filtered|
          invariant !namespaceMatches
          invariant forall m :: 0 <= m < j ==> filtered[m].meta.name != secret.meta.namespace
        {
          if filtered[j].meta.name == secret.meta.namespace {
            namespaceMatches := true;
            break;
          }
          j := j + 1;
        }
        assert namespaceMatches <==> HasNamespaceNamed(filtered, secret.meta.namespace);

        if !namespaceMatches {
          continue;
        }

        if sr.secretSelector.Some? {
          var sel := sr.secretSelector.value;
          if !ValidSelector(sel) {
            continue;
          }
          if !SelectorMatches(sel, secret.meta.labels) {
            continue;
          }
        }

        requests := requests + [RequestFor(secret)];
        contributors := contributors + [i];
      }
    }

    /**
     * List of the Deployments in one namespace: every Deployment stored under
     * that namespace, each once, as stored, in an order the model leaves open.
     */
    method ListDeployments(ns: string, listFails: bool) returns (r: Result<seq<Deployment>, Error>)
      requires Valid()
      ensures listFails ==> r == Failure(ListFailed)
      ensures !listFails ==> r.Success?
      ensures r.Success? ==> IsListing(deployments, ns, r.value)
    {
      if listFails {
        return Failure(ListFailed);
      }
      var items: seq<Deployment> := [];
      var remaining := NamespaceKeys(deployments, ns);
      ListingStart(deployments, ns);
      while remaining != {}
        invariant ListingSoFar(deployments, ns, remaining, items)
        decreases |remaining|
      {
        var k :| k in remaining;
        ListingStep(deployments, ns, remaining, items, k);
        items := items + [deployments[k]];
        remaining := remaining - {k};
      }
      ListingComplete(deployments, ns, items);
      return Success(items);
    }

    /**
     * restartDeployment: the patch sets the restartedAt annotation of the
     * stored Deployment with that key to `now`. It fails with NotFound when
     * no such Deployment is stored, and with PatchFailed when `patchFails`.
     */
    method RestartDeployment(deployment: Deployment, now: Timestamp, patchFails: bool) returns (err: Option<Error>)
      requires Valid()
      modifies this`deployments
      ensures Valid()
      ensures deployment.Key() !in old(deployments) ==>
        err == Some(NotFound(deployment.Key())) && deployments == old(deployments)
      ensures deployment.Key() in old(deployments) && patchFails ==>
        err == Some(PatchFailed(deployment.Key())) && deployments == old(deployments)
      ensures deployment.Key() in old(deployments) && !patchFails ==>
        err == None && deployments == old(deployments)[deployment.Key() := Restarted(old(deployments)[deployment.Key()], now)]
    {
      var key := deployment.Key();
      if key !in deployments {
        return Some(NotFound(key));
      }
      if patchFails {
        return Some(PatchFailed(key));
      }
      deployments := deployments[key := Restarted(deployments[key], now)];
      return None;
    }

    /**
     * One pass of Reconcile's loop: a Deployment that refers to the Secret is
     * restarted; one that does not, or whose patch fails, is left alone.
     * `restarted` says whether the patch went through.
     */
    method RestartIfUsing(deployment: Deployment, secretName: string, now: Timestamp, patchFails: bool)
      returns (restarted: bool)
      requires Valid()
      requires deployment.Key() in deployments
      modifies this`deployments
      ensures Valid()
      ensures restarted <==> DeploymentUsesSecret(deployment, secretName) && !patchFails
      ensures restarted ==>
        deployments == old(deployments)[deployment.Key() := Restarted(old(deployments)[deployment.Key()], now)]
      ensures !restarted ==> deployments == old(deployments)
    {
      if !DeploymentUsesSecret(deployment, secretName) {
        return false;
      }
      var e := RestartDeployment(deployment, now, patchFails);
      if e.Some? {
        return false;
      }
      return true;
    }

    /**
     * Reconcile's loop over a listed batch: restart each Deployment that
     * refers to the Secret, count the patches that went through, and go on
     * past a failed one. `targets` names the Deployments of the batch whose
     * restart succeeds.
     */
    method RestartBatch(items: seq<Deployment>, secretName: string, patchFails: set<ObjectKey>,
                        clock: ObjectKey -> Timestamp, ghost targets: set<ObjectKey>)
      returns (restartedCount: nat)
      requires Valid()
      requires DistinctKeys(items)
      requires forall i :: 0 <= i < |items| ==> items[i].Key() in deployments && deployments[items[i].Key()] == items[i]
      requires forall i :: 0 <= i < |items| ==>
        (items[i].Key() in targets <==> DeploymentUsesSecret(items[i], secretName) && items[i].Key() !in patchFails)
      modifies this`deployments
      ensures Valid()
      ensures deployments == PartlyRestarted(old(deployments), targets, KeySet(items), clock)
      ensures restartedCount == CountTargets(items, targets)
    {
      ghost var store := deployments;
      ghost var done: set<ObjectKey> := {};
      restartedCount := 0;
      for i := 0 to |items|
        invariant Valid()
        invariant done == KeySet(items[..i])
        invariant deployments == PartlyRestarted(store, targets, done, clock)
        invariant restartedCount == CountTargets(items[..i], targets)
      {
        var key := items[i].Key();
        BatchStep(items, i);
        PartlyRestartedStep(store, targets, done, key, clock);
        assert items[..i + 1][..i] == items[..i];
        var restarted := RestartIfUsing(items[i], secretName, clock(key), key in patchFails);
        done := done + {key};
        if restarted {
          restartedCount := restartedCount + 1;
        }
      }
      assert items[..|items|] == items;
    }

    /**
     * Reconcile for a request carrying a Secret's key. `podNamespace` is the
     * value of POD_NAMESPACE, `listFails` whether the Deployment List call
     * fails, `patchFails` the Deployments whose patch fails, and `clock(k)`
     * the time at which Deployment k is patched.
     */
    method Reconcile(req: Request, podNamespace: string, listFails: bool,
                     patchFails: set<ObjectKey>, clock: ObjectKey -> Timestamp)
      returns (err: Option<Error>, restartedCount: nat)
      requires Valid()
      modifies this`deployments
      ensures Valid()
      ensures req.namespacedName.namespace == OperatorNamespace(podNamespace) ==>
        err == None && restartedCount == 0 && deployments == old(deployments)
      ensures req.namespacedName.namespace != OperatorNamespace(podNamespace) && listFails ==>
        err == Some(ListFailed) && restartedCount == 0 && deployments == old(deployments)
      ensures req.namespacedName.namespace != OperatorNamespace(podNamespace) && !listFails ==>
        && err == None
        && deployments == AfterRestarts(old(deployments), req.namespacedName.namespace, req.namespacedName.name, patchFails, clock)
        && restartedCount == |RestartedKeys(old(deployments), req.namespacedName.namespace, req.namespacedName.name, patchFails)|
      ensures restartedCount <= |NamespaceKeys(old(deployments), req.namespacedName.namespace)|
    {
      var secretNamespace := req.namespacedName.namespace;
      var secretName := req.namespacedName.name;

      var operatorNamespace := OperatorNamespace(podNamespace);
      if secretNamespace == operatorNamespace {
        return None, 0;
      }

      var listed := ListDeployments(secretNamespace, listFails);
      if listed.Failure? {
        return Some(listed.error), 0;
      }
      var items := listed.value;

      ghost var store := deployments;
      ghost var targets := RestartedKeys(store, secretNamespace, secretName, patchFails);
      ListedTargets(store, secretNamespace, secretName, patchFails, items);
      restartedCount := RestartBatch(items, secretName, patchFails, clock, targets);
      CountTargetsIsCardinality(items, targets);
      BatchDone(store, secretNamespace, secretName, patchFails, clock);
      err := None;
    }
  }
}
