# traktor SecretsRefresh controller, modelled in Dafny

This project models the decision logic of traktor's `SecretsRefreshReconciler`. That is the controller that restarts Kubernetes Deployments when the data of a Secret they use changes. It covers five things:

- **The change filter on the Secret watch.** Create, Delete and Generic events are dropped. An Update event passes only when the data fingerprints of the old and new Secret differ. The fingerprint is the sorted `key=value;` concatenation of `Secret.Data`.
- **The dependency scan `deploymentUsesSecret`.** It looks for the Secret's name in the pod template's Secret volumes, in the `envFrom` and `env` Secret references of init, regular and ephemeral containers, and in `imagePullSecrets`.
- **The reverse mapping from a changed Secret to reconcile requests.**
  - Each `SecretsRefresh` policy filters the namespaces through its namespace selector (`getFilteredNamespaces`).
  - A policy asks for a request when the Secret's namespace is among those namespaces and its secret selector, if any, is valid and matches the Secret's labels.
  - Each such policy contributes one request, keyed by the Secret's own namespace and name.
- **`Reconcile`.**
  - It skips the operator's own namespace (`POD_NAMESPACE`, by default `traktor-system`).
  - It lists the Deployments in the Secret's namespace.
  - It patches every Deployment that uses the Secret, carries on past failed patches, and counts the patches that succeed.
- **`restartDeployment`.** Its strategic merge patch is modelled by its effect: one annotation, `traktor.gdxcloud.net/restartedAt`, on the pod template's metadata.

## Modules

- **`Wrappers`:** `Option` and `Result`.
- **`ByteOrder`:**
  - bytes, and the lexicographic byte order that Go string comparison uses;
  - `sort.Strings`, as an insertion sort;
  - the canonical ascending enumeration of a set of byte strings.
- **`Kube`:** the API objects the controller reads:
  - Secret, Namespace, SecretsRefresh and Deployment;
  - the pod spec with volumes, containers, env sources and pull secrets;
  - label selectors with `matchLabels` and `matchExpressions` (`In`, `NotIn`, `Exists`, `DoesNotExist`), with the value-count rules that make a selector valid.
- **`SecretHash`:**
  - `hashSecretData`, as a method: the key-collecting loop runs in an order the model leaves open, followed by the sort and the builder loop;
  - the method is proved equal to the order-independent `Fingerprint` of the data map;
  - injectivity under a side condition, and a collision without it.
- **`ChangeFilter`:** the `predicate.Funcs` closures, and what they admit.
- **`SecretUsage`:** the scan, and a reference definition of the Secret names that a pod template mentions.
- **`Restart`:** the Deployment after the restart patch.
- **`Controller`:**
  - namespace filtering and policy matching;
  - the effect of one reconcile on the Deployment store;
  - class `SecretsRefreshReconciler`. It holds the Namespace list, the SecretsRefresh list and the Deployment store (a map from namespace and name to Deployment). Its methods update the store in place.

Things that come from outside are inputs to the model:

- **Client call failures:**
  - `listFails` is a flag for each List call;
  - `nsListFails` is the set of policy positions whose Namespace List fails;
  - `patchFails` is the set of Deployment keys whose Patch fails.
- **`POD_NAMESPACE`:** the `podNamespace` string.
- **`time.Now()`:** a clock from Deployment key to timestamp string.

## Model

| member | source | states |
|---|---|---|
| ByteOrder.SortStrings | internal/controller/secretsrefresh_controller.go:291 | sort.Strings: the result is sorted under the byte order and is a permutation of the input |
| ByteOrder.SortedKeys | internal/controller/secretsrefresh_controller.go:286-291 | the canonical order of a key set: strictly ascending, holding exactly the set's members, as many as the set has |
| ByteOrder.StrictlySortedUnique | internal/controller/secretsrefresh_controller.go:286-291 | two strictly ascending sequences with the same members are equal, so the sorted key list does not depend on map iteration order |
| ByteOrder.LessTotal | internal/controller/secretsrefresh_controller.go:291 | any two distinct byte strings are ordered one way or the other |
| ByteOrder.LessTransitive | internal/controller/secretsrefresh_controller.go:291 | the byte order is transitive |
| SecretHash.HashSecretData | internal/controller/secretsrefresh_controller.go:281-302 | a nil Secret gives the empty string; otherwise, whatever order the keys are collected in, the result is the fingerprint of Data: its entries `key=value;` in ascending key order |
| SecretHash.WriteEntries | internal/controller/secretsrefresh_controller.go:293-299 | the builder loop produces the concatenation of `key=value;` over the keys in the given order |
| SecretHash.SortedEnumerationIsCanonical | internal/controller/secretsrefresh_controller.go:286-291 | sorting any enumeration of the map's keys gives the canonical ascending order |
| SecretHash.SerializeSnoc | internal/controller/secretsrefresh_controller.go:294-299 | writing one more key appends exactly its entry |
| SecretHash.SerializeInjective | internal/controller/secretsrefresh_controller.go:293-299 | when keys hold no `=` and values no `;`, equal encodings mean equal key lists and equal values for them |
| SecretHash.FingerprintInjective | internal/controller/secretsrefresh_controller.go:281-302 | when keys hold no `=` and values no `;`, equal fingerprints mean equal data maps |
| SecretHash.FingerprintCollision | internal/controller/secretsrefresh_controller.go:293-299 | two different data maps, {"a": "b;c=d"} and {"a": "b", "c": "d"}, share the fingerprint `a=b;c=d;` |
| ChangeFilter.UpdateFunc | internal/controller/secretsrefresh_controller.go:243-257 | an update passes exactly when both objects are Secrets and their data fingerprints differ |
| ChangeFilter.Filter | internal/controller/secretsrefresh_controller.go:237-266 | the event predicate admits exactly the events of Admits: no Create, Delete or Generic event, and an Update only as UpdateFunc decides |
| ChangeFilter.OnlyUpdatesAdmitted | internal/controller/secretsrefresh_controller.go:237-266 | an admitted event is an Update between two Secrets |
| ChangeFilter.MetadataOnlyUpdateDropped | internal/controller/secretsrefresh_controller.go:251-256 | an update that keeps Data equal is dropped, whatever it does to name, labels or annotations |
| ChangeFilter.NilLikeEmpty | internal/controller/secretsrefresh_controller.go:282-284 | a nil Secret and a Secret with empty Data both fingerprint to the empty string, so an update between them is dropped |
| ChangeFilter.AdmittedMeansDataChanged | internal/controller/secretsrefresh_controller.go:253-256 | an admitted update between two Secrets changed their Data |
| ChangeFilter.DataChangeAdmitted | internal/controller/secretsrefresh_controller.go:251-256 | a Data change passes the filter when no key holds `=` and no value holds `;` |
| ChangeFilter.DataChangeCanBeDropped | internal/controller/secretsrefresh_controller.go:293-299 | without that side condition, some real Data change is dropped |
| SecretUsage.DeploymentUsesSecretIff | internal/controller/secretsrefresh_controller.go:139-198 | the scan is true exactly when the name, by exact string equality, is among the Secret names the pod template mentions |
| SecretUsage.VolumesUseIff | internal/controller/secretsrefresh_controller.go:142-147 | the volume scan hits exactly the names of Secret volume sources |
| SecretUsage.EnvFromUsesIff | internal/controller/secretsrefresh_controller.go:155-159 | the envFrom scan hits exactly when some envFrom entry has a Secret reference of that name |
| SecretUsage.EnvUsesIff | internal/controller/secretsrefresh_controller.go:161-168 | the env scan hits exactly when some env var takes its value from a key of that Secret |
| SecretUsage.ContainerUsesIff | internal/controller/secretsrefresh_controller.go:153-169 | one container matches exactly the Secret names of its envFrom and env sources |
| SecretUsage.ContainersUseIff | internal/controller/secretsrefresh_controller.go:149-169 | the init-and-regular container scan hits exactly the names some container mentions |
| SecretUsage.EphemeralContainersUseIff | internal/controller/secretsrefresh_controller.go:171-188 | the ephemeral container scan hits exactly the names some ephemeral container mentions |
| SecretUsage.PullSecretsUseIff | internal/controller/secretsrefresh_controller.go:190-195 | the pull secret scan hits exactly the listed pull secret names |
| SecretUsage.ContainersSecretNamesAppend | internal/controller/secretsrefresh_controller.go:150-151 | scanning init containers followed by regular containers sees the names of both lists |
| SecretUsage.UnreferencedNeverMatched | internal/controller/secretsrefresh_controller_test.go:209-289 | a Deployment whose pod template does not mention the name is never matched, so it is not restarted |
| SecretUsage.PullSecretAloneMatches | internal/controller/secretsrefresh_controller.go:190-195 | a pull secret reference on its own is enough for a match |
| SecretUsage.EnvFromReferenceMatches | internal/controller/secretsrefresh_controller_test.go:291-403 | among several envFrom Secret references of a container, any one of them matches, whatever its position |
| Restart.Restarted | internal/controller/secretsrefresh_controller.go:114-135 | the patch sets or overwrites the restartedAt annotation of the pod template to the given time; every other annotation and every other field of the Deployment is unchanged |
| Restart.RestartLastWriteWins | internal/controller/secretsrefresh_controller.go:116-126 | restarting twice equals restarting once with the later time |
| Restart.RestartsDifferOnlyInTimestamp | internal/controller/secretsrefresh_controller.go:116-126 | two restarts of one Deployment are equal exactly when their timestamps are |
| Restart.RestartKeepsReferences | internal/controller/secretsrefresh_controller.go:114-135 | a restart does not change which Secrets the Deployment uses |
| Controller.OperatorNamespace | internal/controller/secretsrefresh_controller.go:59-62 | POD_NAMESPACE when it is set and not empty, `traktor-system` otherwise; never empty |
| Controller.MatchingNamespacesMembers | internal/controller/secretsrefresh_controller.go:223-229 | a namespace is kept exactly when it is listed and its labels match; the result is no longer than the list |
| Controller.MatchingNamespacesAppend | internal/controller/secretsrefresh_controller.go:224-229 | filtering keeps list order: it distributes over concatenation |
| Controller.MatchingNamespacesAll | internal/controller/secretsrefresh_controller.go:223-231 | when every namespace matches, the whole list comes back |
| Controller.NamespaceFilterOutcomes | internal/controller/secretsrefresh_controller.go:201-232 | a nil selector gives every listed namespace; an invalid selector is an error; the call fails exactly on a List failure or an invalid selector; on success the result holds exactly the matching listed namespaces |
| Controller.PolicyWantsSecretIff | internal/controller/secretsrefresh_controller.go:316-347 | with unique namespace names, a policy asks for the Secret exactly when its namespace listing succeeds, its namespace selector is absent or valid and matches the Secret's namespace, and its secret selector is absent or valid and matches the Secret's labels |
| Controller.UnlistedNamespaceNeverWanted | internal/controller/secretsrefresh_controller.go:324-335 | no policy asks for a Secret whose namespace is not listed |
| Controller.RestartedKeys | internal/controller/secretsrefresh_controller.go:80-101 | only Deployments of the Secret's namespace are restarted |
| Controller.AfterRestartsChangesOnlyUsers | internal/controller/secretsrefresh_controller.go:80-101 | after a reconcile every Deployment is still stored; one outside the namespace, not using the Secret, or whose patch failed is unchanged; every other one is restarted |
| Controller.FailedPatchIsolated | internal/controller/secretsrefresh_controller.go:90-95 | one more failing patch changes the outcome for that Deployment only and does not raise the count |
| Controller.CountTargetsIsCardinality | internal/controller/secretsrefresh_controller.go:81-100 | over a batch of Deployments with distinct keys, counting the successful restarts one by one gives the number of restarted keys |
| Controller.SecretsRefreshReconciler.constructor | internal/controller/secretsrefresh_controller.go:31-36 | the reconciler starts with the given namespaces, policies and Deployment store |
| Controller.SecretsRefreshReconciler.GetFilteredNamespaces | internal/controller/secretsrefresh_controller.go:201-232 | the filtering loop returns NamespaceFilterResult: the nil-selector, invalid-selector, List-failure and filtered cases |
| Controller.SecretsRefreshReconciler.FindSecretsRefreshForSecret | internal/controller/secretsrefresh_controller.go:305-360 | no request when the policy List fails; at most one request per policy; each request names the Secret's own namespace and name; policy i contributes exactly when it wants the Secret, so a failing or invalid policy is skipped without affecting the others |
| Controller.SecretsRefreshReconciler.ListDeployments | internal/controller/secretsrefresh_controller.go:73-78 | a failing List is an error; otherwise every stored Deployment of the namespace is listed, each once and as stored |
| Controller.SecretsRefreshReconciler.RestartDeployment | internal/controller/secretsrefresh_controller.go:114-135 | a Deployment that is not stored is NotFound; a failing patch is PatchFailed; both leave the store unchanged; otherwise the stored Deployment is replaced by its restarted form |
| Controller.SecretsRefreshReconciler.RestartIfUsing | internal/controller/secretsrefresh_controller.go:83-100 | one pass of the loop: the Deployment is restarted exactly when it uses the Secret and its patch succeeds; otherwise the store is unchanged |
| Controller.SecretsRefreshReconciler.RestartBatch | internal/controller/secretsrefresh_controller.go:80-101 | after the loop, exactly the listed target Deployments are restarted, and the count is the number of them |
| Controller.SecretsRefreshReconciler.Reconcile | internal/controller/secretsrefresh_controller.go:48-110 | the operator's own namespace is skipped with no change; a List failure returns its error with no change; otherwise there is no error, the store becomes AfterRestarts, and the count equals the number of restarted Deployments, at most the number of Deployments in the namespace |

## Left out

- **SetupWithManager's builder chain** (`For`, `Watches`, `Named`, `Complete`): framework wiring. Only the predicate closures it installs are modelled.
- **Client I/O.** List and Patch calls are replaced by the store in the class fields and by failure inputs. A List either fails or returns the stored objects, and a Patch either fails or takes effect.
- **The strategic merge patch JSON** (`json.Marshal`, `client.RawPatch`): modelled by its effect on the pod template's annotations. The marshal error path is left out: marshalling a fixed map of strings cannot fail.
- **`time.Now()` and RFC 3339 formatting** (section 5.6 of RFC 3339): the timestamp is an input string.
- **`os.Getenv("POD_NAMESPACE")`:** its value is the `podNamespace` parameter.
- **Label selector syntax.** The key and value syntax checks of `metav1.LabelSelectorAsSelector` are left out. Its operator and value-count checks are modelled.
- **Logging, the event recorder, the RBAC markers:** no behaviour.
- **The work queue's concurrent dispatch of reconciles:** concurrency is outside the model.
- **`Secret.StringData`:** not hashed, as in the code. The comment at internal/controller/secretsrefresh_controller.go:251 says data or stringData; the code reads only Data, and the model follows the code.
- **The doc comment of `deploymentUsesSecret`** (internal/controller/secretsrefresh_controller.go:138) names volumes, env and envFrom only. The code also checks imagePullSecrets, and the model follows the code.
- **List order.** A Deployment List returns its items in an order the model leaves open. Namespace and policy lists are taken in the order stored.
- **nil and empty slices.** `getFilteredNamespaces` returns a nil slice when nothing matches. Go treats that like an empty slice, and the model does not tell them apart.
- **Requests that are not Secrets.** `findSecretsRefreshForSecret` receives any `client.Object`; the model passes it a Secret, which is what the watch delivers.
- **Request de-duplication.** Several policies that want one Secret yield several equal requests. The model keeps them all, as the code does. The work queue's merging of equal requests is not modelled.
