# Verification of the pull-secrets operator

This project models the part of the operator that decides what happens to Secrets: resolving
credentials, deriving Secret names, planning targets, validating a `RegistryPullSecret`,
comparing and rendering Secrets, and the reconcile loop that creates, updates and deletes them
against an API server whose calls may fail before or after taking effect. On top of the code
it proves what whole runs achieve: attempts cut off at any write, retries, several registries
on one cluster, and the work queue.

Verify everything with `dafny verify dfyconfig.toml`.

## How the project is laid out

| file | content |
|---|---|
| `Collections.dfy` | duplicate-free sequences |
| `Model.dfy` | resources, Secrets, errors, library calls |
| `Names.dfy` | name derivation and DNS-1123 validity |
| `Spelling.dfy` | trimming, sanitizing, deriving and name checking in terms of characters and labels |
| `CredentialSource.dfy` | resolving credentials |
| `Planner.dfy` | namespaces and target names |
| `Validation.dfy` | the validator, and `Accepts`, its declarative meaning |
| `Replication.dfy` | writes, and where any number of them leads |
| `Secrets.dfy` | rendering, comparing, desired and obsolete Secrets |
| `Attempts.dfy` | one reconcile attempt as a relation, `Reconciles` |
| `Promises.dfy` | what is promised, in terms of resource fields and the Secrets seen afterwards |
| `Delivery.dfy` | plans, acceptance and attempts measured by those promises |
| `Controller.dfy` | the reconciler and the cluster as classes, proved against `Reconciles` |
| `Retries.dfy` | sequences of attempts of one registry |
| `Registries.dfy` | several registries, ownership, exclusion changes |
| `Histories.dfy` | histories of whole attempts expanded to the runs of single writes in `Registries.dfy` |
| `Takeover.dfy` | Exclusive registries and Secrets that are not theirs |
| `Fleet.dfy` | any number of registries taking turns, every attempt cut off anywhere |
| `WorkQueue.dfy` | the work queue and overlapping attempts as a state machine |

Loops of the source are methods proved against a function or a predicate; theorems are about
those functions and about `Reconciles`. The set `Want` gives every planned key its content,
`Stale` are the planned keys that are missing or differ, `Obsolete` the owned keys no longer
planned, `Synced` the store a complete attempt reaches. `Promises.Delivered` says the same
without any of these, on lists, names and label strings, and `Delivery` connects the two.

## Assumptions

- Reads are fresh, and nothing else changes the Secrets while one attempt runs. In the work
  queue model attempts overlap with each other and with outside changes; only reads are fresh.
- Namespace names in the cluster are unique. With `/`-free namespaces the source's
  `namespace/name` strings identify a Secret (`Model.KeyStringsAreInjective`), so keys are pairs.
- A Secret is labels, type and data (`content`) plus everything else (`other`). A Go string or
  byte slice is a `string` whose characters stand for bytes; lower-casing and trimming are ASCII.
- `url.Parse`, base64 and JSON marshalling are arbitrary deterministic functions (`Library`);
  `url.Parse` and marshalling may fail.
- Theorems over several attempts need the credentials source not to be planned or owned by the
  registry itself (`Retries.Ready`). That is no more than the code needs: otherwise a success
  leaves credentials that do not resolve (`Retries.ReadyIsExact`). For an Inclusive registry it
  is enough that the source does not carry its labels (`Retries.InclusiveSourceIsSafe`).
- Renderings are compared as strings. Where different payloads are rendered differently
  (`Secrets.Injective`), equal renderings mean the same login (`Secrets.RenderingTellsLogin`).

## Where the code differs from its documentation

- The validator checks targets only in namespaces that the registry or the policy mentions
  (`internal/sync/validation.go:63`). For an Exclusive registry a foreign Secret is therefore
  protected only in namespaces an override names, not everywhere as `README.md:55` of the
  repository suggests. An Exclusive registry writes only its own Secrets in every cluster if and
  only if an override names each selected namespace (`Takeover.ExclusiveWritesExactly`); a
  success takes over exactly the foreign Secrets that are planned
  (`Takeover.SuccessAndForeignSecrets`), in a concrete case an unmanaged one
  (`Takeover.ExclusiveOverwritesAForeignSecret`). Two Exclusive registries planning the same key
  take it from each other on every success (`Takeover.ExclusiveRegistriesTakeFromEachOther`).
- Nothing stops an Exclusive registry from planning a replica where its own credentials Secret
  is. It then validates, succeeds once and never resolves its credentials again:
  `Takeover.ExclusiveOverwritesItsSource`, `Retries.OverwrittenSourceStopsTheRegistry`.
- `docs/src/content/docs/concepts/how-it-works.md:82` says that excluding a namespace deletes
  nothing. The next reconcile of an Exclusive registry deletes exactly the replicas in the newly
  excluded namespaces: `Registries.ExclusionDeletesExactly`, with a concrete case in
  `Registries.ExclusionDeletesAReplica`. Inclusive registries keep the promise:
  `Registries.InclusivePlanIgnoresExclusions`.
- `docs/src/content/docs/concepts/how-it-works.md:67` gives a name for `docker.io`; the code
  finds none (`Names.DockerHubHasNoDerivedName`) and rejects every registry for that host
  (`Validation.DockerHubIsRejected`). `Names.DerivationFailsExactly` says which hosts have no name.
- A registry whose server yields no name is rejected even with an explicit `targetSecretName`
  (`internal/sync/planner.go:28-35`). With a good explicit name and nothing else wrong, a
  registry is accepted in some cluster if and only if its server has a host that yields a name
  (`Validation.ExplicitNameNeedsDerivableHost`); `Validation.ExplicitNameIsNotEnough` is a case.

## Model

| member | source | states |
|---|---|---|
| Model.KeyStringsAreInjective | internal/controller/registrypullsecret_controller.go:253-257 | the string key identifies the Secret when namespaces contain no slash |
| Names.ValidatePullSecretName | internal/sync/validation.go:244-263 | accepts exactly DNS-1123 subdomains with at least 3 alphanumerics |
| Names.SanitizeDNSLabelPart | internal/sync/planner.go:192-208 | the loop computes the sanitizing function |
| Names.SanitizedIsLabel | internal/sync/planner.go:192-208 | the result is empty or a lowercase label; labels are exactly the non-empty fixed points; sanitizing twice changes nothing |
| Names.StripKnownTLDSuffix | internal/sync/planner.go:150-175 | the loop and branches compute the suffix-stripping function |
| Names.DeriveHostLabel | internal/sync/planner.go:132-148 | the loop computes the last significant token |
| Names.DefaultTargetSecretName | internal/sync/planner.go:86-107 | dotted and undotted hosts, empty candidates and unparsable servers |
| Names.SplitDotsIsExact | internal/sync/planner.go:100 | splitting at dots loses nothing and leaves no dot |
| Names.DerivationIsOneScan | internal/sync/planner.go:132-175 | stripping the suffix and picking the last significant token is one right-to-left scan |
| Names.SubdomainsAreIgnored | internal/sync/planner.go:100-101 | anything put in front of a dotted host that derives leaves the name unchanged |
| Names.DerivedNamesAreGood | internal/sync/planner.go:86-107 | a derived name is a label, and validation accepts it exactly when the candidate has at most 241 characters |
| Names.SchemeIsOptional | internal/sync/planner.go:109-130 | the scheme may be left out and surrounding space is ignored |
| Names.UndottedHostIsKept | internal/sync/planner.go:92-98 | an undotted host that is a label is the name itself |
| Names.DocumentedShapes | internal/sync/planner.go:100-106 | name.tld and name.secondary.tld derive to name |
| Names.DerivationFailsExactly | internal/sync/planner.go:92-104 | a host yields a name exactly when, with a dot, some label in front of its suffix is not generic, and without one, it has a letter or digit |
| Names.DockerHubHasNoDerivedName | internal/sync/planner.go:86-107 | deriving a default name fails for every server whose host is docker.io |
| Spelling.TrimSpaceExactly | internal/sync/credentials.go:75-80 | trimming takes off all white space around a text and nothing else |
| Spelling.SanitizeIsTheOnlyOne | internal/sync/planner.go:192-208 | sanitizing is the only function that lowers capitals and drops other characters wherever they are, drops outer dashes and leaves labels alone |
| Spelling.HostIsFoundExactly | internal/sync/planner.go:109-130 | the host is what the parser finds, character by character in lower case, with https:// in front exactly when no :// is there |
| Spelling.LabelsDerive | internal/sync/planner.go:132-190 | for a dotted host of labels, of any depth, the name is the last label before the suffix that is not one of the three generic ones |
| Spelling.DefaultNameOfLabels | internal/sync/planner.go:86-107 | the default Secret name of such a host is that label with the suffix, or an error if there is none |
| Spelling.DocumentedHosts | internal/sync/planner.go:177-190 | ghcr.io gives ghcr, registry.widgets.co.uk gives widgets |
| Spelling.GoodNameExactly | internal/sync/validation.go:244-263 | a name is good when a one-pass reader of the subdomain syntax accepts it, it has at most 253 characters, and three of them are letters or digits |
| Spelling.NamespaceNameExactly | internal/sync/validation.go:233-242 | a namespace name is one label of at most 63 characters for the same reader |
| CredentialSource.ResolutionDecides | internal/sync/credentials.go:22-80 | resolution succeeds exactly when one source is set and a referenced Secret has three non-blank entries; spec credentials are taken as they are, Secret entries without the white space around them; errors are not validation errors |
| CredentialSource.SourceIsReadExactly | internal/sync/credentials.go:44-80 | a source Secret yields exactly the credentials whose five fields its entries hold with any white space around them |
| CredentialSource.CredentialsInExactly | internal/controller/registrypullsecret_controller.go:153-176 | which credentials a spec resolves to in a cluster, both ways |
| CredentialSource.SourceRoundTrip | internal/sync/credentials.go:44-80 | credentials written to a source Secret are read back field by field |
| Planner.EffectiveTargets | internal/sync/planner.go:22-60 | derivation must succeed, then the plan in namespace order |
| Planner.PlansListTargets | internal/sync/planner.go:42-59 | the plan lists each selected namespace's key once, whatever the list order |
| Planner.OverrideMapMeaning | internal/sync/planner.go:37-40 | the filled map holds exactly the override entries when namespaces are distinct |
| Validation.AsValidationError | internal/sync/validation.go:28-37 | marks an error and never marks twice |
| Validation.WrappingKeepsVerdict | internal/sync/validation.go:28-43 | any number of wrappers keeps whether an error is a validation error |
| Validation.ValidateNamespaceName | internal/sync/validation.go:233-242 | accepts exactly DNS-1123 labels, the wildcard test included |
| Validation.ValidateSelectedNamespaces | internal/sync/validation.go:146-158 | accepts exactly duplicate-free lists of valid names |
| Validation.ValidatePullSecretPolicy | internal/sync/validation.go:76-89 | the same for the exclusion list, with validation errors |
| Validation.ValidateNamespaceOverrides | internal/sync/validation.go:160-177 | accepts exactly distinct namespaces, all valid, with good names |
| Validation.ValidateNamespaceSelection | internal/sync/validation.go:111-144 | policy, explicit name, namespaces and overrides are all valid |
| Validation.ValidateGloballyExcludedSelection | internal/sync/validation.go:265-284 | no override and no Inclusive selection is excluded |
| Validation.ValidateDefaultTargetSecretName | internal/sync/validation.go:91-109 | the explicit or derived default name is good |
| Validation.PolicyAwareNamespaceInventory | internal/sync/validation.go:205-231 | first occurrences of everything mentioned, in order |
| Validation.ValidateTargets | internal/sync/validation.go:179-203 | accepts exactly when every target name is good and no target is foreign |
| Validation.ValidateRegistryPullSecret | internal/sync/validation.go:47-73 | accepts exactly what the declarative predicate describes, and fails only with validation errors |
| Validation.AcceptanceIgnoresOrder | internal/sync/validation.go:47-73 | permuting namespaces, overrides or exclusions changes neither acceptance nor targets |
| Validation.OverridesDecideNames | internal/sync/planner.go:48-51 | an override decides the name in its namespace and nowhere else |
| Validation.NamesAreGoodEverywhere | internal/sync/validation.go:91-177 | after acceptance every name planned for any cluster namespace list is valid |
| Delivery.AcceptsExactly | internal/sync/validation.go:47-73 | what the validator decides, field by field: the form of lists and names, a server that yields a name, and free keys in listed namespaces (Inclusive) or in unlisted override namespaces (Exclusive) |
| Delivery.PlanSpelledOut | internal/sync/planner.go:42-83 | accepted Inclusive registries plan exactly the listed namespaces that exist, Exclusive ones exactly those neither listed nor excluded; one Secret each, under the override's, explicit or derived name |
| Delivery.OverridesTakeEffect | internal/sync/validation.go:277-281 | no override of an accepted registry is cancelled by an exclusion: the selection alone decides whether its Secret is planned, and its namespace gets no other |
| Delivery.InclusiveCount | internal/sync/validation.go:146-158 | the desired count of an Inclusive registry is the number of listed namespaces that exist, and no planned namespace has a slash |
| Validation.NameResolvesExactly | internal/sync/planner.go:22-35 | the default name resolves exactly when the server has a host that yields a name, explicit name or not; only a derived name also needs a length check |
| Validation.ExplicitNameNeedsDerivableHost | internal/sync/validation.go:59-66 | with a good explicit name and a valid selection, some cluster is accepted exactly when the host yields a name |
| Validation.DockerHubIsRejected | internal/sync/validation.go:59-66 | every registry for the host docker.io is rejected, under every policy and in every cluster |
| Validation.ExplicitNameIsNotEnough | internal/sync/validation.go:59-66 | a concrete registry with a good explicit name, rejected for docker.io and accepted for another host |
| Secrets.RenderingTellsLogin | internal/sync/secret.go:146-179 | with an injective marshaller two credentials render alike exactly when server, user, password, email and effective auth entry agree |
| Delivery.PayloadIsReadBack | internal/sync/secret.go:157-171 | with an injective marshaller whatever marshals to a replica's data has the server, user, password, email and auth entry of the credentials |
| Delivery.PlannableExactly | internal/sync/secret.go:58-91 | planning succeeds exactly for accepted registries with user, password and a docker config that can be marshalled, without reference to plans |
| Secrets.SecretNeedsApply | internal/sync/secret.go:117-143 | false exactly when type, labels and data agree |
| Secrets.BuiltSecretHolds | internal/sync/secret.go:93-115 | the built Secret carries the manager, owner and server labels, its type, and the payload as its only data entry |
| Secrets.DesiredSecrets | internal/sync/secret.go:58-91 | succeeds exactly when validation and rendering do; one entry per planned key, flagged exactly when stale; errors are validation errors exactly when rejected |
| Secrets.ObsoleteSecrets | internal/sync/secret.go:28-56 | in any walk order, each owned Secret that is not desired, once |
| Secrets.PlanningDecides | internal/sync/secret.go:59-91 | planning succeeds exactly when validation accepts, username and password are set and marshalling works |
| Secrets.SecretCredentialsNeverFailToRender | internal/sync/credentials.go:44-80 | with credentials from a Secret planning cannot fail after validation |
| Replication.Convergence | internal/controller/registrypullsecret_controller.go:128-148 | a complete attempt makes exactly the planned keys owned, with planned contents; owned ones no longer planned are gone; everything else is untouched |
| Replication.EachWriteIsProgress | internal/controller/registrypullsecret_controller.go:128-148 | each write takes one unit off the work left, applies first, and keeps the goal |
| Replication.MakeBeforeBreak | internal/controller/registrypullsecret_controller.go:128-148 | served target namespaces stay served at every point; nothing is deleted before all is applied |
| Controller.RegistryPullSecretReconciler.ApplySecret | internal/controller/registrypullsecret_controller.go:262-283 | creates or updates keeping the rest; what took effect under every fault |
| Controller.RegistryPullSecretReconciler.DeleteSecret | internal/controller/registrypullsecret_controller.go:285-291 | deletes, and counts an absent Secret as deleted |
| Controller.RegistryPullSecretReconciler.ResolveCredentials | internal/controller/registrypullsecret_controller.go:153-176 | credentials from the spec or the fetched Secret; its errors are not validation errors |
| Controller.RegistryPullSecretReconciler.ListExistingSecrets | internal/controller/registrypullsecret_controller.go:247-260 | the map equals the store, whatever the list order |
| Controller.RegistryPullSecretReconciler.ReadAndPlan | internal/controller/registrypullsecret_controller.go:99-122 | the reads, the listed snapshot and the plan, and where an attempt stops without writing |
| Controller.RegistryPullSecretReconciler.ApplyDesired | internal/controller/registrypullsecret_controller.go:128-139 | the apply loop carries out a prefix of the flagged writes |
| Controller.RegistryPullSecretReconciler.DeleteObsolete | internal/controller/registrypullsecret_controller.go:141-148 | the delete loop carries out a prefix of the deletes |
| Controller.RegistryPullSecretReconciler.Replicate | internal/controller/registrypullsecret_controller.go:124-150 | the two loops together make the writes in order up to a failure, counting them |
| Controller.RegistryPullSecretReconciler.ReconcileRegistryPullSecret | internal/controller/registrypullsecret_controller.go:94-151 | every execution is an attempt in the sense of the relation for the cluster's policy object and namespaces, its writes are logged in order, without faults the inputs decide the outcome, and no failed call is swallowed |
| Controller.RegistryPullSecretReconciler.UpdateStatus | internal/controller/registrypullsecret_controller.go:293-330 | counters, readiness and reason recorded |
| Controller.RegistryPullSecretReconciler.ReconcileExisting | internal/controller/registrypullsecret_controller.go:88-91 | one attempt, which keeps the promises, and always a status write, which records that attempt; success exactly when both work |
| Controller.RegistryPullSecretReconciler.Reconcile | internal/controller/registrypullsecret_controller.go:74-92 | a deleted registry changes nothing; otherwise a success delivers the promised Secrets for the policy object and namespaces of the cluster, any other end leaves each key as it was or as promised, excluded namespaces are never written, and the status is filed under the requested name |
| Controller.JoinErrors | internal/controller/registrypullsecret_controller.go:91 | a joined error is a validation error exactly when a part is |
| Controller.StatusTellsTheTruth | internal/controller/registrypullsecret_controller.go:293-330 | Synced exactly on success, ValidationFailed exactly when the attempt was rejected, with no write, SyncFailed exactly otherwise; each counter on its own is the attempt's and counts what has come into place or gone, failure or not |
| Retries.OneAttempt | internal/controller/registrypullsecret_controller.go:118-150 | an attempt cut off anywhere keeps the registry ready and the goal fixed, and reduces the work by its writes |
| Retries.CrashRetryConsistency | internal/controller/registrypullsecret_controller.go:118-150 | after any history of attempts, success reaches exactly the state and the summed counters of one uninterrupted attempt |
| Retries.InclusiveSourceIsSafe | internal/controller/registrypullsecret_controller.go:153-176 | an Inclusive registry never writes a source that does not carry its labels |
| Retries.ReadyIsExact | internal/controller/registrypullsecret_controller.go:118-176 | after a success the same credentials resolve exactly when the source was neither planned nor obsolete; otherwise none do |
| Retries.OverwrittenSourceStopsTheRegistry | internal/controller/registrypullsecret_controller.go:118-176 | once the source is overwritten or deleted, every further attempt stops at reading and writes nothing |
| Retries.InclusiveTargetsAreSeen | internal/sync/validation.go:63-70 | targets over any cluster are among those the validator checked, so absent or already owned |
| Retries.SuccessConverges | internal/controller/registrypullsecret_controller.go:128-148 | owned keys, contents, preserved rest, frame and counters after a success |
| Delivery.SuccessDelivers | internal/controller/registrypullsecret_controller.go:94-151 | a success leaves the promised labels, type and docker config under every targeted key, with the rest of the Secret kept, deletes the registry's other Secrets, and changes nothing else |
| Delivery.AttemptPartlyDelivers | internal/controller/registrypullsecret_controller.go:124-150 | an attempt cut off anywhere leaves every key as it was or as promised |
| Delivery.ExcludedStayEmpty | internal/sync/planner.go:64-71 | no attempt creates or changes a Secret in an excluded namespace, and after a success none of the registry's is there |
| Retries.AttemptMakesBeforeBreaking | internal/controller/registrypullsecret_controller.go:128-148 | make before break at every moment of every attempt |
| Retries.Idempotence | internal/sync/secret.go:119-143 | the attempt after a success writes nothing and reports the same desired count, even if the rest of a Secret was edited |
| Retries.RotationReachesEveryTarget | internal/sync/secret.go:93-143 | a replica is due again exactly when server or rendering changed, with an injective marshaller exactly when the login changed |
| Retries.OrderIndependence | internal/sync/secret.go:41-53 | final store and counters do not depend on namespace order or map order |
| Retries.AttemptsExist | internal/controller/registrypullsecret_controller.go:128-148 | an attempt can stop after any number of writes, and one can succeed |
| Registries.InclusiveWritesOnlyItsOwn | internal/sync/validation.go:179-203 | every key an Inclusive registry writes or deletes was absent or its own; foreign Secrets are untouched |
| Registries.ExactlyMentionedTargetsAreSafe | internal/sync/validation.go:63-70 | acceptance protects a target for Inclusive always, for Exclusive exactly where an override names the namespace |
| Registries.NeighbourIsUnaffected | internal/controller/registrypullsecret_controller.go:118-148 | any part of one registry's work leaves a registry with other targets ready, with the same writes due |
| Registries.NonInterference | internal/controller/registrypullsecret_controller.go:118-148 | two Inclusive registries with disjoint targets stay ready and both orders end in the same cluster |
| Registries.SharedKeyGoesToTheFirst | internal/sync/validation.go:189-199 | a shared key is absent, goes to the first, and the second is rejected without a write |
| Registries.WriteKeepsOwnership | internal/sync/validation.go:189-199 | no write of an Inclusive registry changes an unmanaged or another registry's Secret |
| Registries.OwnershipOverRuns | internal/sync/secret.go:41-53 | over any run with failures, unmanaged Secrets are untouched and a key changes owner only through absence |
| Histories.HistoryIsARun | internal/controller/registrypullsecret_controller.go:94-151 | any sequence of attempts and outside changes expands to a run of single writes through its states |
| Histories.OwnershipOverHistories | internal/sync/secret.go:41-53 | over any such sequence a key changes owner only if it was absent at some moment strictly in between |
| Registries.InclusivePlanIgnoresExclusions | internal/sync/planner.go:64-83 | the plan of an Inclusive registry is the same under all exclusion lists it validates under |
| Registries.ExclusionDeletesExactly | internal/sync/secret.go:41-53 | after an exclusion change the next success keeps a replica if and only if its namespace is not excluded |
| Registries.ExclusionDeletesAReplica | internal/sync/secret.go:41-53 | a concrete Exclusive registry whose only replica is deleted |
| Takeover.SuccessAndForeignSecrets | internal/sync/validation.go:63-70 | a success of any policy takes over exactly the foreign Secrets it plans and leaves the others alone |
| Takeover.ExclusiveWritesExactly | internal/sync/validation.go:179-203 | an Exclusive registry writes only absent or own keys in every cluster if and only if an override names every selected namespace |
| Takeover.ExclusiveRegistriesTakeFromEachOther | internal/sync/validation.go:63-70 | two Exclusive registries without overrides planning one key take it from each other, and both keep validating |
| Takeover.ExclusiveOverwritesAForeignSecret | internal/sync/validation.go:63-70 | a concrete accepted Exclusive registry takes over an unmanaged Secret |
| Takeover.ExclusiveOverwritesItsSource | internal/controller/registrypullsecret_controller.go:118-176 | a concrete accepted Exclusive registry overwrites its own credentials Secret and has no credentials afterwards |
| Fleet.DifferentNamespacesMakePeace | internal/sync/validation.go:47-73 | validating Inclusive registries with different namespaces and unowned sources do not interfere |
| Fleet.PeaceIsKept | internal/controller/registrypullsecret_controller.go:94-151 | any attempt of any of them, cut off anywhere, keeps all of them ready and apart |
| Fleet.WorkIsConserved | internal/controller/registrypullsecret_controller.go:118-150 | over any interleaving each registry's writes are exactly the progress on its own work |
| Fleet.SuccessLasts | internal/controller/registrypullsecret_controller.go:118-150 | a registry that has succeeded stays in sync through all later turns |
| Fleet.FleetConverges | internal/controller/registrypullsecret_controller.go:94-151 | once each has succeeded, the cluster holds exactly the planned Secrets of all, whatever failed in between |
| WorkQueue.RegistryPullSecretsForSecret | internal/controller/registrypullsecret_controller.go:191-218 | the names of the registries referencing the Secret, in list order |
| WorkQueue.RequestsMeaning | internal/controller/registrypullsecret_controller.go:199-215 | a registry is requested exactly when its reference has both the namespace and the name of the Secret |
| WorkQueue.QueuedForAReason | internal/controller/registrypullsecret_controller.go:178-189 | a registry is queued exactly after its own change, removal, requeue or failure, or a change of the Secret its spec refers to, and leaves only to be reconciled |
| WorkQueue.RequestsAreWoken | internal/controller/registrypullsecret_controller.go:191-218 | the requests are exactly the registries the queue model wakes |
| WorkQueue.AttemptIsARun | internal/controller/registrypullsecret_controller.go:94-151 | every attempt of the relation is a fragment of a queue run from the store it reads to the store it leaves, recorded or queued again |
| WorkQueue.StepKeepsSettled | internal/controller/registrypullsecret_controller.go:178-189 | every event keeps: what is not queued is up to date or has read nothing outdated |
| WorkQueue.StepIsTracked | internal/controller/registrypullsecret_controller.go:118-150 | every event, with attempts overlapping, keeps: an undisturbed attempt is where its own writes lead, an undisturbed record is in sync |
| WorkQueue.StaleImpliesQueued | internal/controller/registrypullsecret_controller.go:74-92 | over all runs, a live registry neither queued nor running was last synced with its current spec and credentials, and if its footprint was left alone nothing is stale or obsolete |

## Left out

- Kubernetes client, caches, watches, leader election and manager wiring: the cluster is a store whose calls fail as an arbitrary function decides.
- Changes to Secrets between the list and the writes of one attempt: the code overwrites such a Secret; the theorems about attempts assume there are none; in the queue model they mark the attempt as disturbed, and nothing is said about its replicas.
- API-server rejections such as invalid label values or a changed Secret type: they count as failing calls.
- URL parsing: the derivation theorems start from the host that `url.Parse` returns.
- JSON and base64 encoding: library code, arbitrary functions here.
- Non-ASCII lower-casing and white space.
- A failing list in the map function from Secrets to registries: the source then drops the event; the queue theorem covers runs in which the list succeeds.
- Policy and namespace changes as events of the queue model: this controller of the source watches neither, so its theorem speaks of replicas for the namespaces and exclusions the last success planned with.
- `SetStatusCondition`, timestamps, generations, log lines and message texts.
- The policy reconciler, `DeepCopy` code, command line, charts and scripts.
- Wrap-around of the 32-bit counters.
- Validation.ValidateRegistryPullSecret: does not fix which of several violations is reported, because the messages are not modelled.
