# REST service deployment bookkeeping

A Dafny model of the deploy/undeploy bookkeeping of OpenEJB's `RESTService`
(`server/openejb-rest/.../RESTService.java`). When the container reports that
an application or a web module has been created, the service decides which
JAX-RS endpoints to publish, computes the address pattern each one is bound
under, records the bound address in its `services` list and hands the endpoint
to a listener. When an application is destroyed it removes every listener whose
address ends with one of the application's context roots. `stop` destroys every
application the service recorded.

The project has seven modules:

- `Wrappers` (`wrappers.dfy`): `Option`, `Result` and `Outcome`.
- `Info` (`info.dfy`): the descriptors the container passes in (`AppInfo`,
  `WebAppInfo`, `EjbJarInfo`, `EnterpriseBeanInfo`), the container lookups
  (`Container`, `WebContext`, `BeanContext`), the `EJBRestServiceInfo` record,
  and what is handed to the listener registry (`Deployment`, `Target`, `Event`).
- `Paths` (`paths.dfy`): the string arithmetic, i.e. `String.indexOf`,
  `getFullContext`, `getAddress`, the `Application` prefix and the listener
  pattern.
- `Resolver` (`resolver.dfy`): the resolution policy of
  `afterApplicationCreated(WebAppInfo, Map)`. `WebAppPlan` says which
  deployments a web module makes, in which order, and which exception stops it.
  `ResolveWebApp` computes the same with the source's loops.
- `Partition` (`partition.dfy`): the partitioning of an application's REST EJBs
  into those a web module claims and those left with no root. It is written as
  folds (`RestBeanContexts`, `RestEjbs`) and as the source's nested loops
  (`CollectBeanContexts`, `CollectRestEjbs`).
- `Lifecycle` (`lifecycle.dfy`): the whole service state as a value `State` and
  each notification as a function on it (`Step`, `Execute`, `WebAppCreated`,
  `AppCreated`, `Destroy`, `DestroyAll`), with the lemmas about them.
- `Service` (`service.dfy`): the class `RestService`. Its fields
  `deployedApplications`, `deployedWebApps`, `services` and the event log are
  updated in place by methods proved equal to the `Lifecycle` functions.

Foreign collaborators are modelled as follows:

- The listener registry and the listeners are an append-only event log:
  - `Bind(pattern, address)` for `createRsHttpListener`;
  - `Publish(fullContext, target)` for a listener's `deploy*` call;
  - `Unbind(address)` for `removeListener(...).undeploy()`.
- The address the registry selects for a pattern (`HttpUtil.selectSingleAddress`)
  is a function `transport`.
- Class loading and `Application` instantiation are lookups in a `WebContext`.
- A Java exception is an `Outcome.Fail` carrying a `RestError`. The state
  changes made before it stay in place, as the fields' in-place updates do.

`Lifecycle.Consistent` is the invariant every operation keeps, and
`RestService.Valid` holds it for the object. It says that:

- `services` is exactly the list of addresses bound in the event log;
- every unbound address is one of `services`.

`Lifecycle.Grows` states that no operation ever shrinks `deployedApplications`,
`services` or the event log.

## Model

| member | source | states |
|---|---|---|
| Paths.IndexOf | server/openejb-rest/src/main/java/org/apache/openejb/server/rest/RESTService.java:273 | the result is -1 or an index where the context occurs, and the context occurs at no earlier index |
| Paths.FullContext | server/openejb-rest/src/main/java/org/apache/openejb/server/rest/RESTService.java:268-271 | with no context the full context is the address unchanged |
| Paths.FullContextSpec | server/openejb-rest/src/main/java/org/apache/openejb/server/rest/RESTService.java:268-279 | a full context exists exactly when the context occurs in the address; it then starts with the address up to the first occurrence and ends with the context |
| Paths.FullContextCutsAddress | server/openejb-rest/src/main/java/org/apache/openejb/server/rest/RESTService.java:273-278 | the full context is the address cut right after the first occurrence of the context, or, when neither the base ends with `/` nor the context starts with one, the base, one `/` and the context |
| Paths.DropLeadingSlash | server/openejb-rest/src/main/java/org/apache/openejb/server/rest/RESTService.java:137-141 | a leading `/` is removed and nothing else changes |
| Paths.AppPrefix | server/openejb-rest/src/main/java/org/apache/openejb/server/rest/RESTService.java:120-142 | the prefix is the context root, then exactly one `/` at the junction, then the `@ApplicationPath` value without its leading `/`; without the annotation it ends with `/` |
| Paths.JoinPath | server/openejb-rest/src/main/java/org/apache/openejb/server/rest/RESTService.java:287 | joining a resource path never shortens the base |
| Paths.JoinPathEnds | server/openejb-rest/src/main/java/org/apache/openejb/server/rest/RESTService.java:287 | the joined path starts with the base and ends with the resource path, and an empty resource path adds nothing |
| Paths.JoinPathJunction | server/openejb-rest/src/main/java/org/apache/openejb/server/rest/RESTService.java:287 | exactly one `/` separates the base from a non-empty resource path |
| Paths.Address | server/openejb-rest/src/main/java/org/apache/openejb/server/rest/RESTService.java:281-293 | an address is at least as long as the `http://nopath/` placeholder |
| Paths.AddressSpec | server/openejb-rest/src/main/java/org/apache/openejb/server/rest/RESTService.java:281-293 | an address starts with the placeholder followed by the context, and ends with the class's `@Path` value; without one it is the placeholder and the context |
| Paths.ListenerPattern | server/openejb-rest/src/main/java/org/apache/openejb/server/rest/RESTService.java:232-234 | the pattern is the address plus `/.*` minus the placeholder less its final `/` |
| Paths.ListenerPatternSpec | server/openejb-rest/src/main/java/org/apache/openejb/server/rest/RESTService.java:232-234 | the pattern starts with `/`, ends with `/.*`, and `http://nopath` followed by it is the address followed by `/.*` |
| Resolver.NonNull | server/openejb-rest/src/main/java/org/apache/openejb/server/rest/RESTService.java:144-147 | the non-null singletons are exactly the objects present in the list |
| Resolver.ScannedPlan | server/openejb-rest/src/main/java/org/apache/openejb/server/rest/RESTService.java:103-117 | the scanned-class resolution; its contract is stated by `ScannedPlanPolicy` and the loop `ResolveScanned` |
| Resolver.ScannedPlanPolicy | server/openejb-rest/src/main/java/org/apache/openejb/server/rest/RESTService.java:103-117 | scanned classes deploy once each, in order, under the context root: as the REST EJB of that name if there is one, else as the loaded class; resolution fails exactly when some class is neither, at the first such class, with `ClassNotFound` |
| Resolver.SingletonsPlan | server/openejb-rest/src/main/java/org/apache/openejb/server/rest/RESTService.java:144-157 | the resolution of one `Application`'s singletons; its contract is stated by `SingletonsPlanPolicy` |
| Resolver.SingletonsPlanPolicy | server/openejb-rest/src/main/java/org/apache/openejb/server/rest/RESTService.java:144-157 | null singletons are skipped; each other one deploys once, in order, under the prefix, as the REST EJB of its class name if there is one and as a singleton otherwise |
| Resolver.ClassesPlan | server/openejb-rest/src/main/java/org/apache/openejb/server/rest/RESTService.java:158-166 | the resolution of one `Application`'s classes; its contract is stated by `ClassesPlanPolicy` |
| Resolver.ApplicationPlan | server/openejb-rest/src/main/java/org/apache/openejb/server/rest/RESTService.java:144-166 | one `Application`'s singletons then classes; its contract is stated by `ApplicationPlanTargets` |
| Resolver.ClassesPlanPolicy | server/openejb-rest/src/main/java/org/apache/openejb/server/rest/RESTService.java:158-166 | each class of an `Application` deploys once, in order, under the prefix, as the REST EJB of its name or as a class of that application |
| Resolver.ApplicationPlanTargets | server/openejb-rest/src/main/java/org/apache/openejb/server/rest/RESTService.java:144-166 | an `Application` deploys only under its prefix, only its own classes and singletons, none of them named as a REST EJB, and only registered EJBs |
| Resolver.ApplicationsPlan | server/openejb-rest/src/main/java/org/apache/openejb/server/rest/RESTService.java:119-169 | the resolution of the listed `Application`s; its contract is stated by `ApplicationsPlanPolicy` and `ApplicationsPlanStopsAtFirstMissing` |
| Resolver.WebAppPlan | server/openejb-rest/src/main/java/org/apache/openejb/server/rest/RESTService.java:103-170 | what one web module resolves to; its contract is stated by `ApplicationConfigurationIsExclusive` and `EjbPrecedence` |
| Resolver.ApplicationsPlanPolicy | server/openejb-rest/src/main/java/org/apache/openejb/server/rest/RESTService.java:119-169 | resolution fails exactly when a listed `Application` cannot be created, at the first such one, with `ApplicationNotCreated`; every deployment comes from a created `Application` all of whose predecessors were created |
| Resolver.CreatedPrefix | server/openejb-rest/src/main/java/org/apache/openejb/server/rest/RESTService.java:119-132 | the number of listed `Application` subclasses, from the first, that can all be created: each before it can, the one at it cannot |
| Resolver.ApplicationsPlanStopsAtFirstMissing | server/openejb-rest/src/main/java/org/apache/openejb/server/rest/RESTService.java:119-169 | the deployments are exactly the whole plans (`AllPlans`) of the `Application`s before the first one that cannot be created, in order, and the error names that one, or there is none |
| Resolver.ApplicationConfigurationIsExclusive | server/openejb-rest/src/main/java/org/apache/openejb/server/rest/RESTService.java:103-170 | with `Application` subclasses listed, the scanned classes play no part, and every class or singleton deployed belongs to a listed `Application` |
| Resolver.EjbPrecedence | server/openejb-rest/src/main/java/org/apache/openejb/server/rest/RESTService.java:104-166 | no class or singleton whose name is a REST EJB is deployed directly, and every EJB deployed is a registered REST EJB |
| Resolver.ResolveWebApp | server/openejb-rest/src/main/java/org/apache/openejb/server/rest/RESTService.java:103-170 | the loops resolve exactly the plan and error of `WebAppPlan` |
| Resolver.ResolveScanned | server/openejb-rest/src/main/java/org/apache/openejb/server/rest/RESTService.java:103-117 | the scanned-class loop resolves exactly `ScannedPlan` |
| Resolver.ApplicationPrefix | server/openejb-rest/src/main/java/org/apache/openejb/server/rest/RESTService.java:120-142 | the prefix accumulated step by step is `AppPrefix` |
| Resolver.ResolveApplications | server/openejb-rest/src/main/java/org/apache/openejb/server/rest/RESTService.java:119-169 | the loop over the listed `Application`s, ending at the first that cannot be created, resolves exactly `ApplicationsPlan` |
| Resolver.ResolveApplication | server/openejb-rest/src/main/java/org/apache/openejb/server/rest/RESTService.java:119-167 | one `Application` resolves exactly `ApplicationPlan` under its prefix: its singletons, then its classes |
| Resolver.ResolveSingletons | server/openejb-rest/src/main/java/org/apache/openejb/server/rest/RESTService.java:144-157 | the singleton loop resolves exactly `SingletonsPlan` |
| Resolver.ResolveClasses | server/openejb-rest/src/main/java/org/apache/openejb/server/rest/RESTService.java:158-166 | the class loop resolves exactly `ClassesPlan` |
| Partition.LastPut | server/openejb-rest/src/main/java/org/apache/openejb/server/rest/RESTService.java:189-201 | finds the last live REST bean of a class, or reports that there is none |
| Partition.AddBeans | server/openejb-rest/src/main/java/org/apache/openejb/server/rest/RESTService.java:190-200 | the bean loop as a fold; its contract is stated by `AddBeansSpec` |
| Partition.AddJars | server/openejb-rest/src/main/java/org/apache/openejb/server/rest/RESTService.java:190-201 | the jar loop as a fold; its contract is stated by `RestBeanContextsSpec` |
| Partition.RestBeanContexts | server/openejb-rest/src/main/java/org/apache/openejb/server/rest/RESTService.java:189-201 | the REST bean contexts of an application; its contract is stated by `RestBeanContextsSpec` |
| Partition.AddBeansSpec | server/openejb-rest/src/main/java/org/apache/openejb/server/rest/RESTService.java:190-200 | after the bean loop a class maps to the context of the last live REST bean of that class, and other keys keep their value |
| Partition.RestBeanContextsSpec | server/openejb-rest/src/main/java/org/apache/openejb/server/rest/RESTService.java:189-201 | a class is a key exactly when some REST bean of that class has a live context; its value is the context of the last such bean, and beans without a context are skipped |
| Partition.CollectBeanContexts | server/openejb-rest/src/main/java/org/apache/openejb/server/rest/RESTService.java:189-201 | the nested loops build exactly `RestBeanContexts` |
| Partition.NewEjbRestServiceInfo | server/openejb-rest/src/main/java/org/apache/openejb/server/rest/RESTService.java:177-184 | the record is built exactly when the bean context is present, with the given path and context; otherwise the error is the missing context |
| Partition.Get | server/openejb-rest/src/main/java/org/apache/openejb/server/rest/RESTService.java:206 | a map lookup is present exactly for a key of the map, with its value |
| Partition.LastNaming | server/openejb-rest/src/main/java/org/apache/openejb/server/rest/RESTService.java:204-208 | finds the last web module naming an EJB, or reports that none does |
| Partition.ClaimingRoot | server/openejb-rest/src/main/java/org/apache/openejb/server/rest/RESTService.java:204-208 | an EJB has a claiming root exactly when a web module names it, and it is the context root of the last such module |
| Partition.ClaimEjbs | server/openejb-rest/src/main/java/org/apache/openejb/server/rest/RESTService.java:205-207 | one web module's claims as a fold; its contract is stated by `ClaimEjbsSpec` |
| Partition.ClaimEjbsSpec | server/openejb-rest/src/main/java/org/apache/openejb/server/rest/RESTService.java:205-207 | one web module's claims succeed exactly when every EJB it names has a context; each named EJB then maps to that module's root and nothing else changes |
| Partition.ClaimWebApps | server/openejb-rest/src/main/java/org/apache/openejb/server/rest/RESTService.java:203-208 | all web modules' claims as a fold; its contract is stated by `ClaimWebAppsSpec` |
| Partition.ClaimWebAppsSpec | server/openejb-rest/src/main/java/org/apache/openejb/server/rest/RESTService.java:203-208 | the claims succeed exactly when every named EJB has a context; a named EJB maps to the root of the last module naming it |
| Partition.RestEjbs | server/openejb-rest/src/main/java/org/apache/openejb/server/rest/RESTService.java:203-215 | the REST EJB map of an application; its contract is stated by `RestEjbsPartition` |
| Partition.RestEjbsPartition | server/openejb-rest/src/main/java/org/apache/openejb/server/rest/RESTService.java:203-215 | the partition fails exactly when some web module names an EJB without a context; otherwise its keys are exactly the live REST beans, each with its context and with the root of the last module naming it, or no root if none does |
| Partition.CollectRestEjbs | server/openejb-rest/src/main/java/org/apache/openejb/server/rest/RESTService.java:203-215 | the loops build exactly `RestEjbs`, whatever order the bean map is visited in |
| Lifecycle.Step | server/openejb-rest/src/main/java/org/apache/openejb/server/rest/RESTService.java:231-259 | one deployment appends exactly one address to `services`, leaves both sets unchanged, and succeeds exactly when its full context exists |
| Lifecycle.DeployBindsOneListener | server/openejb-rest/src/main/java/org/apache/openejb/server/rest/RESTService.java:231-259 | one deployment binds one listener under a pattern starting with `/` and ending with `/.*`, records its address, and publishes the target under the full context; it fails with `ContextNotInAddress` when the context is not in the address |
| Lifecycle.Addresses | server/openejb-rest/src/main/java/org/apache/openejb/server/rest/RESTService.java:234-237 | the addresses a plan binds, one per deployment, in order |
| Lifecycle.FailurePoint | server/openejb-rest/src/main/java/org/apache/openejb/server/rest/RESTService.java:238 | the first deployment of a plan whose full context does not exist |
| Lifecycle.Execute | server/openejb-rest/src/main/java/org/apache/openejb/server/rest/RESTService.java:104-166 | deploying a plan in order until the first exception; its contract is stated by `ExecuteFrame`, `ExecuteOutcome` and `ExecuteServices` |
| Lifecycle.ExecuteFrame | server/openejb-rest/src/main/java/org/apache/openejb/server/rest/RESTService.java:231-259 | deploying a plan changes neither `deployedApplications` nor `deployedWebApps`; the old `services` and the old log are prefixes of the new ones |
| Lifecycle.ExecuteOutcome | server/openejb-rest/src/main/java/org/apache/openejb/server/rest/RESTService.java:231-259 | deploying a plan succeeds exactly when every full context exists; otherwise it fails at the first deployment whose context is not in its address |
| Lifecycle.ExecuteServices | server/openejb-rest/src/main/java/org/apache/openejb/server/rest/RESTService.java:237 | deploying a plan appends the addresses of the deployments attempted, the failing one included |
| Lifecycle.ExecuteSnoc | server/openejb-rest/src/main/java/org/apache/openejb/server/rest/RESTService.java:223-225 | deploying a longer plan is deploying the shorter one and then, if it succeeded, one more deployment |
| Lifecycle.StepEventsLogged | server/openejb-rest/src/main/java/org/apache/openejb/server/rest/RESTService.java:234-238 | one deployment logs exactly one bound address and no unbinding |
| Lifecycle.ConsistentStep | server/openejb-rest/src/main/java/org/apache/openejb/server/rest/RESTService.java:231-259 | one deployment keeps `services` equal to the bound addresses and shrinks nothing |
| Lifecycle.ConsistentExecute | server/openejb-rest/src/main/java/org/apache/openejb/server/rest/RESTService.java:231-259 | a plan of deployments keeps the invariant and shrinks nothing |
| Lifecycle.WebAppCreated | server/openejb-rest/src/main/java/org/apache/openejb/server/rest/RESTService.java:77-171 | a web module notification; its contract is stated by `WebAppCreatedFrame`, `WebAppNotificationIsIdempotent` and `WebAppCreatedDeploys` |
| Lifecycle.WebAppCreatedFrame | server/openejb-rest/src/main/java/org/apache/openejb/server/rest/RESTService.java:78-85 | a web module notification never changes the recorded applications, and records the module exactly when it has a web context |
| Lifecycle.WebAppNotificationIsIdempotent | server/openejb-rest/src/main/java/org/apache/openejb/server/rest/RESTService.java:78-85 | a module without a web context is skipped entirely; a module with one is recorded, and once it is recorded any later notification for it deploys nothing and changes no state, whatever the container and the REST EJBs are at that later notification |
| Lifecycle.WebAppCreatedDeploys | server/openejb-rest/src/main/java/org/apache/openejb/server/rest/RESTService.java:77-171 | a new module with a web context is recorded, binds the addresses of the deployments attempted, and succeeds exactly when every deployment succeeds and resolution raised nothing; a failed deployment gives `ContextNotInAddress` for the first deployment whose context is not in its address, and otherwise the resolution error surfaces after the deployments before it |
| Lifecycle.ConsistentWebAppCreated | server/openejb-rest/src/main/java/org/apache/openejb/server/rest/RESTService.java:77-171 | a web module notification keeps the invariant and shrinks nothing |
| Lifecycle.WebAppsCreated | server/openejb-rest/src/main/java/org/apache/openejb/server/rest/RESTService.java:218-220 | the notifications of an application's web modules; its contract is stated by `WebAppsCreatedFrame` and `ConsistentWebAppsCreated` |
| Lifecycle.WebAppsCreatedFrame | server/openejb-rest/src/main/java/org/apache/openejb/server/rest/RESTService.java:218-220 | notifying an application's web modules records only those modules and no application |
| Lifecycle.ConsistentWebAppsCreated | server/openejb-rest/src/main/java/org/apache/openejb/server/rest/RESTService.java:218-220 | notifying the web modules in turn keeps the invariant and shrinks nothing |
| Lifecycle.AppCreated | server/openejb-rest/src/main/java/org/apache/openejb/server/rest/RESTService.java:187-229 | an application notification; its contract is stated by `AppCreatedRecordsFirst`, `AppNotificationIsIdempotent`, `OnlyStandaloneDeploysDirectly` and `ConsistentAppCreated` |
| Lifecycle.AppCreatedRecordsFirst | server/openejb-rest/src/main/java/org/apache/openejb/server/rest/RESTService.java:188 | an application notification records the application, whatever happens after |
| Lifecycle.AppNotificationIsIdempotent | server/openejb-rest/src/main/java/org/apache/openejb/server/rest/RESTService.java:188 | a second notification for the same application deploys nothing and changes no state, whatever the container holds at that second notification |
| Lifecycle.StandalonePlan | server/openejb-rest/src/main/java/org/apache/openejb/server/rest/RESTService.java:222-226 | the direct deployments of a standalone module; its contract is stated by `StandalonePlanSpec` |
| Lifecycle.StandalonePlanSpec | server/openejb-rest/src/main/java/org/apache/openejb/server/rest/RESTService.java:222-226 | a standalone module deploys directly exactly the REST EJBs visited, each under its own root, once per visit |
| Lifecycle.OnlyStandaloneDeploysDirectly | server/openejb-rest/src/main/java/org/apache/openejb/server/rest/RESTService.java:222-226 | for an application that is not a standalone module, the order of the REST EJB map plays no part |
| Lifecycle.ConsistentAppCreated | server/openejb-rest/src/main/java/org/apache/openejb/server/rest/RESTService.java:187-229 | an application notification keeps the invariant and shrinks nothing |
| Lifecycle.Unbinds | server/openejb-rest/src/main/java/org/apache/openejb/server/rest/RESTService.java:313-317 | the unbindings for one web module; its contract is stated by `UndeployMatchesSuffix` |
| Lifecycle.UndeployMatchesSuffix | server/openejb-rest/src/main/java/org/apache/openejb/server/rest/RESTService.java:313-317 | the addresses unbound for one web module are exactly the bound addresses ending with its context root; nothing is bound |
| Lifecycle.UndeployEvents | server/openejb-rest/src/main/java/org/apache/openejb/server/rest/RESTService.java:312-319 | the unbindings for an application's web modules; its contract is stated by `UndeployEventsSpec` |
| Lifecycle.UndeployEventsSpec | server/openejb-rest/src/main/java/org/apache/openejb/server/rest/RESTService.java:312-319 | the addresses unbound for an application are exactly the bound addresses ending with one of its context roots |
| Lifecycle.Destroy | server/openejb-rest/src/main/java/org/apache/openejb/server/rest/RESTService.java:310-321 | `beforeApplicationDestroyed`; its contract is stated by `DestroySpec` and `ConsistentDestroy` |
| Lifecycle.DestroySpec | server/openejb-rest/src/main/java/org/apache/openejb/server/rest/RESTService.java:310-321 | an unrecorded application is ignored; otherwise exactly the addresses ending with one of its context roots are unbound and its web modules are forgotten, while `services` and the recorded applications stay as they were |
| Lifecycle.ConsistentDestroy | server/openejb-rest/src/main/java/org/apache/openejb/server/rest/RESTService.java:310-321 | destroying an application keeps the invariant and shrinks neither `services` nor the recorded applications |
| Lifecycle.NoRedeployAfterDestroy | server/openejb-rest/src/main/java/org/apache/openejb/server/rest/RESTService.java:310-321 | since a destroyed application stays recorded, a new notification for it deploys nothing, whatever the container holds at that notification |
| Lifecycle.DestroyAll | server/openejb-rest/src/main/java/org/apache/openejb/server/rest/RESTService.java:345-352 | `stop`'s loop; its contract is stated by `StopForgetsWebApps` and `ConsistentDestroyAll` |
| Lifecycle.StopForgetsWebApps | server/openejb-rest/src/main/java/org/apache/openejb/server/rest/RESTService.java:345-352 | destroying recorded applications forgets exactly their web modules and keeps `services` and the recorded applications |
| Lifecycle.ConsistentDestroyAll | server/openejb-rest/src/main/java/org/apache/openejb/server/rest/RESTService.java:345-352 | stopping keeps the invariant and shrinks nothing |
| Service.RestService.constructor | server/openejb-rest/src/main/java/org/apache/openejb/server/rest/RESTService.java:69-74 | a new service has recorded nothing and keeps the invariant |
| Service.RestService.Deploy | server/openejb-rest/src/main/java/org/apache/openejb/server/rest/RESTService.java:231-259 | the fields change exactly as `Step` says, and the invariant holds |
| Service.RestService.DeployAll | server/openejb-rest/src/main/java/org/apache/openejb/server/rest/RESTService.java:104-166 | deploying in turn until the first exception changes the fields exactly as `Execute` says |
| Service.RestService.AfterWebAppCreated | server/openejb-rest/src/main/java/org/apache/openejb/server/rest/RESTService.java:77-171 | the fields change exactly as `WebAppCreated` says for the container as it is at this notification, and the invariant holds |
| Service.RestService.DeployWebApps | server/openejb-rest/src/main/java/org/apache/openejb/server/rest/RESTService.java:218-220 | the per-module notifications change the fields exactly as `WebAppsCreated` says |
| Service.RestService.DeployStandalone | server/openejb-rest/src/main/java/org/apache/openejb/server/rest/RESTService.java:222-226 | the direct deployment visits REST EJBs once each, in some order, deploys them as `StandalonePlan` of that order says, and visits all of them when no exception occurs |
| Service.RestService.AfterApplicationCreated | server/openejb-rest/src/main/java/org/apache/openejb/server/rest/RESTService.java:187-229 | the fields change exactly as `AppCreated` says for the container as it is at this notification and the order the REST EJBs were visited in, and that order visits each REST EJB once |
| Service.RestService.UndeployRestObject | server/openejb-rest/src/main/java/org/apache/openejb/server/rest/RESTService.java:295-297 | one unbinding is logged and nothing else changes |
| Service.RestService.UndeployMatching | server/openejb-rest/src/main/java/org/apache/openejb/server/rest/RESTService.java:313-317 | the loop over `services` unbinds, in order, the addresses ending with the context root |
| Service.RestService.UndeployWebApps | server/openejb-rest/src/main/java/org/apache/openejb/server/rest/RESTService.java:312-319 | each web module's matching addresses are unbound in turn and the modules are forgotten |
| Service.RestService.BeforeApplicationDestroyed | server/openejb-rest/src/main/java/org/apache/openejb/server/rest/RESTService.java:310-321 | the fields change exactly as `Destroy` says, and the invariant holds |
| Service.RestService.Stop | server/openejb-rest/src/main/java/org/apache/openejb/server/rest/RESTService.java:345-352 | with an assembler, each recorded application is destroyed once, in the set's iteration order, as `DestroyAll` says; without one nothing changes |

## Left out

- Paths.Address: the JAX-RS `UriBuilder`/`URI`/`URL` composition is modelled as plain concatenation with one `/` at the junction. No percent-encoding and no normalisation are modelled, and no `MalformedURLException` or `URISyntaxException` is raised.
- Paths.Address: a class without `@Path` contributes nothing to the address, so the model deploys such a class at the bare context. The real `UriBuilder.path(Class)` rejects such a class, and the source throws there.
- Class loading, `newInstance` and annotation reading are lookups in `WebContext`. A scanned class loads when it is a key of `classes`. An `Application` subclass loads and instantiates when it is a key of `applications`, whose value carries its `@ApplicationPath`, singletons and classes. The thread-context fallback of `getClassLoader` is not modelled.
- Resolver.EjbPrecedence: it assumes that a loaded class's name is the name it was loaded by (`NamesConsistent`). For the scanned branch this is how the JVM's class loaders behave, but the model does not derive it.
- The `ClassLoader`, `virtualHost`, `Injection` collection and JNDI `Context` arguments are not modelled, because they only pass through to collaborators.
- `createHttpListener`, the listener registry and `HttpUtil.selectSingleAddress` are an event log and a function from pattern to address. The registry's own state is not modelled.
- Lifecycle.Step: `createRsHttpListener`, `selectSingleAddress` and the listener's `deploy*` and `undeploy` calls never fail in the model. A registry that rejects a duplicate pattern, an empty or ambiguous address list, or a listener that throws is not modelled. So `Step`, `ExecuteOutcome` and `WebAppCreatedDeploys` fail only where `getFullContext` throws.
- Service.RestService.UndeployRestObject: the registry's `removeListener` is not part of this model. If it returns `null` for an address whose listener was already removed, the source throws `NullPointerException`. That would happen on the second of two matching context roots, or when an application is destroyed twice. The model logs an `Unbind` each time and never fails.
- `removeDeploymentListener` in `stop`, `start`, `beforeStart`, `init`, `getIP`, `getPort`, the `virtualHost` accessors and the `service` methods are left out. They are plumbing or only throw.
- Logging is left out.
- Concurrency is left out: the source has no locking, and the model is sequential.
- Java identity equality of `AppInfo` and `WebAppInfo` in the two `HashSet`s is modelled as value equality of the descriptors.
- The iteration order of `HashMap` (standalone REST EJBs) and of the copy of `deployedApplications` in `stop` is not fixed. It is a ghost `order` output that the methods show visits each key once.
- In the source, class loading is interleaved with the `deploy*` calls. The model resolves first and deploys afterwards. Resolution has no side effects, so the deployments made before the first exception and the exception itself are the same.
