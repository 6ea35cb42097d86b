/**
 * The REST service's bookkeeping as transformations of its state: the
 * applications and web modules already seen, the addresses bound so far, and
 * the calls made on the listener registry and on the listeners.
 *
 * A notification is recorded before any work is done and is never recorded
 * twice; deployment publishes one endpoint per resolved deployment and stops
 * at the first exception; destruction unbinds every recorded address that
 * ends with one of the application's context roots, and forgets the web
 * modules but neither the application nor the addresses.
 */
module Lifecycle {
  import opened Wrappers
  import opened Info
  import opened Paths
  import opened Resolver
  import opened Partition

  datatype State = State(
    deployedApplications: set<AppInfo>,
    deployedWebApps: set<WebAppInfo>,
    services: seq<string>,
    events: seq<Event>)

  /** The pattern a deployment's listener is bound under. */
  function Pattern(d: Deployment): string {
    ListenerPattern(Address(d.context, TargetClass(d.target).path))
  }

  /** The deployment can be published: its context root occurs in the address the registry selects. */
  predicate Publishable(d: Deployment, transport: string -> string) {
    FullContext(transport(Pattern(d)), d.context).Some?
  }

  /**
   * One call of deploySingleton, deployPojo or deployEJB: it binds a listener
   * under the deployment's pattern and records the address the registry
   * selects, then publishes the target at that address cut at the context
   * root, which fails when the context root does not occur in the address.
   */
  function Step(s: State, d: Deployment, transport: string -> string): (r: (State, Outcome<RestError>))
    ensures r.0.deployedApplications == s.deployedApplications && r.0.deployedWebApps == s.deployedWebApps
    ensures r.0.services == s.services + [transport(Pattern(d))]
    ensures r.1.Pass? <==> Publishable(d, transport)
  {
    var pattern := Pattern(d);
    var address := transport(pattern);
    var bound := s.(services := s.services + [address], events := s.events + [Bind(pattern, address)]);
    match FullContext(address, d.context)
    case None => (bound, Fail(ContextNotInAddress(address, d.context.GetOr(""))))
    case Some(full) => (bound.(events := bound.events + [Publish(full, d.target)]), Pass)
  }

  /**
   * Each deployment appends exactly one address to the services and binds
   * exactly one listener, under a pattern that keeps its leading `/` and ends
   * in `/.*`; it then either publishes the target at a context ending with the
   * context root (the whole address when there is none), or fails, exactly
   * when the context root does not occur in the address.
   */
  lemma DeployBindsOneListener(s: State, d: Deployment, transport: string -> string)
    ensures var (t, o) := Step(s, d, transport); var address := transport(Pattern(d));
      && t.services == s.services + [address]
      && StartsWith(Pattern(d), "/") && EndsWith(Pattern(d), "/.*")
      && "http://nopath" + Pattern(d) == Address(d.context, TargetClass(d.target).path) + "/.*"
      && |t.events| > |s.events| && t.events[..|s.events| + 1] == s.events + [Bind(Pattern(d), address)]
      && (o.Pass? <==> d.context.None? || Occurs(address, d.context.value))
      && (o.Fail? ==> |t.events| == |s.events| + 1 && o.error == ContextNotInAddress(address, d.context.value))
      && (o.Pass? ==>
            && |t.events| == |s.events| + 2
            && t.events[|s.events| + 1].Publish? && t.events[|s.events| + 1].target == d.target
            && (d.context.None? ==> t.events[|s.events| + 1].fullContext == address)
            && (d.context.Some? ==> EndsWith(t.events[|s.events| + 1].fullContext, d.context.value)))
  {
    AddressSpec(d.context, TargetClass(d.target).path);
    ListenerPatternSpec(Address(d.context, TargetClass(d.target).path));
    FullContextSpec(transport(Pattern(d)), d.context);
  }

  /** Deploys a plan in order, stopping at the first failure. */
  function Execute(s: State, plan: seq<Deployment>, transport: string -> string): (State, Outcome<RestError>)
    decreases |plan|
  {
    if plan == [] then (s, Pass)
    else
      var (s1, o) := Step(s, plan[0], transport);
      if o.Fail? then (s1, o) else Execute(s1, plan[1..], transport)
  }

  /** The addresses the registry selects for a plan's deployments, in order. */
  function Addresses(plan: seq<Deployment>, transport: string -> string): (r: seq<string>)
    ensures |r| == |plan|
    ensures forall i | 0 <= i < |plan| :: r[i] == transport(Pattern(plan[i]))
    decreases |plan|
  {
    if plan == [] then [] else [transport(Pattern(plan[0]))] + Addresses(plan[1..], transport)
  }

  /** The position of the first deployment of a plan that cannot be published, or the plan's length. */
  function FailurePoint(plan: seq<Deployment>, transport: string -> string): (k: nat)
    ensures k <= |plan|
    ensures forall i | 0 <= i < k :: Publishable(plan[i], transport)
    ensures k < |plan| ==> !Publishable(plan[k], transport)
    decreases |plan|
  {
    if plan == [] || !Publishable(plan[0], transport) then 0 else 1 + FailurePoint(plan[1..], transport)
  }

  /**
   * Deploying a plan changes neither the applications nor the web modules
   * recorded, and only extends the recorded addresses and the event log.
   */
  lemma {:induction false} ExecuteFrame(s: State, plan: seq<Deployment>, transport: string -> string)
    ensures Execute(s, plan, transport).0.deployedApplications == s.deployedApplications
    ensures Execute(s, plan, transport).0.deployedWebApps == s.deployedWebApps
    ensures s.services <= Execute(s, plan, transport).0.services
    ensures s.events <= Execute(s, plan, transport).0.events
    decreases |plan|
  {
    if plan != [] {
      var (s1, o) := Step(s, plan[0], transport);
      StepAppendsEvents(s, plan[0], transport);
      if o.Pass? {
        ExecuteFrame(s1, plan[1..], transport);
        PrefixTrans(s.services, s1.services, Execute(s1, plan[1..], transport).0.services);
        PrefixTrans(s.events, s1.events, Execute(s1, plan[1..], transport).0.events);
      }
    }
  }

  lemma PrefixTrans<T>(a: seq<T>, b: seq<T>, c: seq<T>)
    requires a <= b && b <= c
    ensures a <= c
  {
    assert c[..|a|] == b[..|a|];
  }

  /** How many deployments of a plan are attempted: all of them, or up to and including the first that fails. */
  function Attempted(plan: seq<Deployment>, transport: string -> string): (n: nat)
    ensures n <= |plan|
  {
    var k := FailurePoint(plan, transport);
    if k < |plan| then k + 1 else k
  }

  /**
   * Deploying a plan passes exactly when every deployment is publishable, and
   * otherwise fails with the error of the first deployment that is not.
   */
  lemma {:induction false} ExecuteOutcome(s: State, plan: seq<Deployment>, transport: string -> string)
    ensures var o := Execute(s, plan, transport).1; var k := FailurePoint(plan, transport);
      && (o.Pass? <==> k == |plan|)
      && (o.Fail? ==> k < |plan| && o.error == ContextNotInAddress(transport(Pattern(plan[k])), plan[k].context.value))
    decreases |plan|
  {
    if plan != [] {
      var (s1, o) := Step(s, plan[0], transport);
      if o.Pass? {
        ExecuteOutcome(s1, plan[1..], transport);
      }
    }
  }

  /** Deploying a plan binds one address per deployment attempted, in order. */
  lemma {:induction false} ExecuteServices(s: State, plan: seq<Deployment>, transport: string -> string)
    ensures Execute(s, plan, transport).0.services == s.services + Addresses(plan[..Attempted(plan, transport)], transport)
    decreases |plan|
  {
    if plan != [] {
      var (s1, o) := Step(s, plan[0], transport);
      var rest := plan[1..];
      if o.Fail? {
        assert plan[..1] == [plan[0]];
      } else {
        ExecuteServices(s1, rest, transport);
        var n := Attempted(rest, transport);
        assert plan[..n + 1][1..] == rest[..n];
        assert Addresses(plan[..n + 1], transport) == [transport(Pattern(plan[0]))] + Addresses(rest[..n], transport);
      }
    }
  }

  /** Deploying a plan and then one more deployment is deploying the longer plan. */
  lemma {:induction false} ExecuteSnoc(s: State, plan: seq<Deployment>, d: Deployment, transport: string -> string)
    ensures Execute(s, plan + [d], transport) ==
      var (s1, o) := Execute(s, plan, transport);
      if o.Fail? then (s1, o) else Step(s1, d, transport)
    decreases |plan|
  {
    if plan == [] {
      assert plan + [d] == [d];
    } else {
      var (s1, o) := Step(s, plan[0], transport);
      assert (plan + [d])[1..] == plan[1..] + [d];
      if o.Pass? {
        ExecuteSnoc(s1, plan[1..], d, transport);
      }
    }
  }

  /** The addresses of the registry's bind events, or with `unbinds` of its unbind events, in order. */
  function Logged(events: seq<Event>, unbinds: bool): seq<string>
    decreases |events|
  {
    if events == [] then []
    else
      var last := events[|events| - 1];
      var hit := if unbinds then last.Unbind? else last.Bind?;
      Logged(events[..|events| - 1], unbinds) + (if hit then [last.address] else [])
  }

  /** The log of a concatenation is the concatenation of the logs. */
  lemma {:induction false} LoggedAppend(a: seq<Event>, b: seq<Event>, unbinds: bool)
    ensures Logged(a + b, unbinds) == Logged(a, unbinds) + Logged(b, unbinds)
    decreases |b|
  {
    if b == [] {
      assert a + b == a;
    } else {
      var init := b[..|b| - 1];
      LoggedAppend(a, init, unbinds);
      assert (a + b)[..|a + b| - 1] == a + init;
    }
  }

  /**
   * The service's invariant: `services` lists exactly the addresses the
   * registry has bound, in order, and only such an address is ever unbound.
   */
  ghost predicate Consistent(s: State) {
    && Logged(s.events, false) == s.services
    && forall a | a in Logged(s.events, true) :: a in s.services
  }

  /** A state is succeeded by another: nothing recorded is forgotten except web modules, and the logs only grow. */
  predicate Grows(s: State, t: State) {
    && s.deployedApplications <= t.deployedApplications
    && s.services <= t.services
    && s.events <= t.events
  }

  /** The events of one deployment: a bind, then a publication when the deployment is publishable. */
  function StepEvents(d: Deployment, transport: string -> string): seq<Event> {
    var address := transport(Pattern(d));
    [Bind(Pattern(d), address)]
      + match FullContext(address, d.context) case Some(full) => [Publish(full, d.target)] case None => []
  }

  lemma StepAppendsEvents(s: State, d: Deployment, transport: string -> string)
    ensures Step(s, d, transport).0.events == s.events + StepEvents(d, transport)
  {
  }

  /** A deployment's events bind exactly the selected address and unbind nothing. */
  lemma StepEventsLogged(d: Deployment, transport: string -> string)
    ensures Logged(StepEvents(d, transport), false) == [transport(Pattern(d))]
    ensures Logged(StepEvents(d, transport), true) == []
  {
    var es := StepEvents(d, transport);
    var b := Bind(Pattern(d), transport(Pattern(d)));
    assert [b][..0] == [];
    if |es| == 2 {
      assert es == [b] + [es[1]];
      LoggedAppend([b], [es[1]], false);
      LoggedAppend([b], [es[1]], true);
      assert [es[1]][..0] == [];
    }
  }

  /** A deployment step keeps the invariant. */
  lemma ConsistentStep(s: State, d: Deployment, transport: string -> string)
    requires Consistent(s)
    ensures Consistent(Step(s, d, transport).0)
    ensures Grows(s, Step(s, d, transport).0)
  {
    var es := StepEvents(d, transport);
    StepAppendsEvents(s, d, transport);
    StepEventsLogged(d, transport);
    LoggedAppend(s.events, es, false);
    LoggedAppend(s.events, es, true);
  }

  /** Deploying a plan keeps the invariant. */
  lemma {:induction false} ConsistentExecute(s: State, plan: seq<Deployment>, transport: string -> string)
    requires Consistent(s)
    ensures Consistent(Execute(s, plan, transport).0)
    ensures Grows(s, Execute(s, plan, transport).0)
    decreases |plan|
  {
    if plan != [] {
      ConsistentStep(s, plan[0], transport);
      var (s1, o) := Step(s, plan[0], transport);
      if o.Pass? {
        ConsistentExecute(s1, plan[1..], transport);
      }
    }
  }

  /**
   * `afterApplicationCreated` for one web module: nothing happens for a module
   * without a web context or already deployed; otherwise the module is
   * recorded first, then its resolved deployments are made, and a resolution
   * error surfaces only after the deployments resolved before it.
   */
  function WebAppCreated(s: State, webApp: WebAppInfo, restEjbs: map<string, EjbRestServiceInfo>,
                         container: Container, transport: string -> string): (State, Outcome<RestError>)
  {
    if webApp.moduleId !in container.webContexts || webApp in s.deployedWebApps then (s, Pass)
    else
      var s1 := s.(deployedWebApps := s.deployedWebApps + {webApp});
      var res := WebAppPlan(webApp, restEjbs, container.webContexts[webApp.moduleId]);
      var (s2, o) := Execute(s1, res.plan, transport);
      if o.Pass? && res.error.Some? then (s2, Fail(res.error.value)) else (s2, o)
  }

  /** The web modules of an application, one after the other, stopping at the first failure. */
  function WebAppsCreated(s: State, webApps: seq<WebAppInfo>, restEjbs: map<string, EjbRestServiceInfo>,
                          container: Container, transport: string -> string): (State, Outcome<RestError>)
    decreases |webApps|
  {
    if webApps == [] then (s, Pass)
    else
      var (s1, o) := WebAppCreated(s, webApps[0], restEjbs, container, transport);
      if o.Fail? then (s1, o) else WebAppsCreated(s1, webApps[1..], restEjbs, container, transport)
  }

  /** The direct deployments of a standalone module's REST EJBs, in the order `order` visits them. */
  function StandalonePlan(order: seq<string>, restEjbs: map<string, EjbRestServiceInfo>): seq<Deployment>
    decreases |order|
  {
    if order == [] then []
    else
      var k := order[|order| - 1];
      StandalonePlan(order[..|order| - 1], restEjbs)
        + (if k in restEjbs then [Deployment(restEjbs[k].path, Ejb(restEjbs[k].context))] else [])
  }

  /** Visiting one more key of the map deploys that key's REST EJB last. */
  lemma StandalonePlanSnoc(order: seq<string>, k: string, restEjbs: map<string, EjbRestServiceInfo>)
    requires k in restEjbs
    ensures StandalonePlan(order + [k], restEjbs)
         == StandalonePlan(order, restEjbs) + [Deployment(restEjbs[k].path, Ejb(restEjbs[k].context))]
  {
    assert (order + [k])[..|order|] == order;
  }

  /** The REST EJBs an application resolves to. */
  function AppRestEjbs(appInfo: AppInfo, container: Container): Result<map<string, EjbRestServiceInfo>, RestError> {
    RestEjbs(appInfo.webApps, RestBeanContexts(appInfo, container.beanContexts))
  }

  /**
   * `afterApplicationCreated` for an application: nothing happens for one
   * already seen; otherwise it is recorded first, its REST EJBs are
   * partitioned, its web modules deployed, and, for a standalone module only,
   * its REST EJBs deployed directly in the order `order` visits them.
   */
  function AppCreated(s: State, appInfo: AppInfo, container: Container, transport: string -> string,
                      order: seq<string>): (State, Outcome<RestError>)
  {
    if appInfo in s.deployedApplications then (s, Pass)
    else
      var s1 := s.(deployedApplications := s.deployedApplications + {appInfo});
      match AppRestEjbs(appInfo, container)
      case Err(e) => (s1, Fail(e))
      case Ok(restEjbs) =>
        var (s2, o) := WebAppsCreated(s1, appInfo.webApps, restEjbs, container, transport);
        if o.Fail? || !appInfo.standaloneModule then (s2, o)
        else Execute(s2, StandalonePlan(order, restEjbs), transport)
  }

  /** The unbinding of every address in `services` that ends with `root`, in order. */
  function Unbinds(services: seq<string>, root: string): seq<Event>
    decreases |services|
  {
    if services == [] then []
    else
      var last := services[|services| - 1];
      Unbinds(services[..|services| - 1], root) + (if EndsWith(last, root) then [Unbind(last)] else [])
  }

  /** The unbindings for each web module in turn. */
  function UndeployEvents(webApps: seq<WebAppInfo>, services: seq<string>): seq<Event>
    decreases |webApps|
  {
    if webApps == [] then []
    else UndeployEvents(webApps[..|webApps| - 1], services) + Unbinds(services, webApps[|webApps| - 1].contextRoot)
  }

  /**
   * `beforeApplicationDestroyed`: for an application that was deployed, unbinds
   * the matching addresses web module by web module and forgets the web
   * modules; nothing else changes.
   */
  function Destroy(s: State, appInfo: AppInfo): State {
    if appInfo !in s.deployedApplications then s
    else
      s.(events := s.events + UndeployEvents(appInfo.webApps, s.services),
         deployedWebApps := s.deployedWebApps - set w | w in appInfo.webApps)
  }

  /** `stop`: destroys each application in the order `order` visits them. */
  function DestroyAll(s: State, order: seq<AppInfo>): State
    decreases |order|
  {
    if order == [] then s else Destroy(DestroyAll(s, order[..|order| - 1]), order[|order| - 1])
  }

  /** `order` visits every element of `keys` exactly once. */
  ghost predicate Enumerates<T(!new)>(order: seq<T>, keys: set<T>) {
    && (forall i, j | 0 <= i < j < |order| :: order[i] != order[j])
    && (forall x :: x in order <==> x in keys)
  }

  /**
   * One web module's deployment never touches the applications recorded, and
   * records the module exactly when it has a web context.
   */
  lemma WebAppCreatedFrame(s: State, webApp: WebAppInfo, restEjbs: map<string, EjbRestServiceInfo>,
                           container: Container, transport: string -> string)
    ensures var t := WebAppCreated(s, webApp, restEjbs, container, transport).0;
      && t.deployedApplications == s.deployedApplications
      && t.deployedWebApps ==
           if webApp.moduleId in container.webContexts then s.deployedWebApps + {webApp} else s.deployedWebApps
  {
    if webApp.moduleId in container.webContexts && webApp !in s.deployedWebApps {
      var s1 := s.(deployedWebApps := s.deployedWebApps + {webApp});
      ExecuteFrame(s1, WebAppPlan(webApp, restEjbs, container.webContexts[webApp.moduleId]).plan, transport);
    }
  }

  /**
   * A web module without a web context is skipped; once a notification has
   * recorded it, any later notification for it deploys nothing and changes
   * nothing, whatever the container and the REST EJBs are by then.
   */
  lemma WebAppNotificationIsIdempotent(s: State, webApp: WebAppInfo, restEjbs: map<string, EjbRestServiceInfo>,
                                       container: Container, restEjbs2: map<string, EjbRestServiceInfo>,
                                       container2: Container, transport: string -> string)
    ensures webApp.moduleId !in container.webContexts ==>
      WebAppCreated(s, webApp, restEjbs, container, transport) == (s, Pass)
    ensures var t := WebAppCreated(s, webApp, restEjbs, container, transport).0;
      && (webApp.moduleId in container.webContexts ==> webApp in t.deployedWebApps)
      && (webApp in t.deployedWebApps ==> WebAppCreated(t, webApp, restEjbs2, container2, transport) == (t, Pass))
  {
    WebAppCreatedFrame(s, webApp, restEjbs, container, transport);
  }

  /**
   * A new web module with a web context is recorded even if its deployment
   * fails; it binds the addresses of its resolved deployments up to the
   * first failure, and it passes exactly when every resolved deployment is
   * published and resolution found nothing missing; a failed deployment's
   * error wins, and the resolution error surfaces only once every deployment
   * resolved before it is published.
   */
  lemma WebAppCreatedDeploys(s: State, webApp: WebAppInfo, restEjbs: map<string, EjbRestServiceInfo>,
                             container: Container, transport: string -> string)
    requires webApp.moduleId in container.webContexts && webApp !in s.deployedWebApps
    ensures var res := WebAppPlan(webApp, restEjbs, container.webContexts[webApp.moduleId]);
      var (t, o) := WebAppCreated(s, webApp, restEjbs, container, transport);
      && webApp in t.deployedWebApps
      && t.services == s.services + Addresses(res.plan[..Attempted(res.plan, transport)], transport)
      && (o.Pass? <==> FailurePoint(res.plan, transport) == |res.plan| && res.error.None?)
      && (o.Fail? && FailurePoint(res.plan, transport) == |res.plan| ==> o == Fail(res.error.value))
      && (var k := FailurePoint(res.plan, transport);
          k < |res.plan| ==> o == Fail(ContextNotInAddress(transport(Pattern(res.plan[k])), res.plan[k].context.value)))
  {
    var s1 := s.(deployedWebApps := s.deployedWebApps + {webApp});
    var plan := WebAppPlan(webApp, restEjbs, container.webContexts[webApp.moduleId]).plan;
    ExecuteFrame(s1, plan, transport);
    ExecuteServices(s1, plan, transport);
    ExecuteOutcome(s1, plan, transport);
  }

  /** One web module's deployment keeps the invariant and forgets nothing. */
  lemma ConsistentWebAppCreated(s: State, webApp: WebAppInfo, restEjbs: map<string, EjbRestServiceInfo>,
                                container: Container, transport: string -> string)
    requires Consistent(s)
    ensures Consistent(WebAppCreated(s, webApp, restEjbs, container, transport).0)
    ensures Grows(s, WebAppCreated(s, webApp, restEjbs, container, transport).0)
  {
    if webApp.moduleId in container.webContexts && webApp !in s.deployedWebApps {
      var s1 := s.(deployedWebApps := s.deployedWebApps + {webApp});
      ConsistentExecute(s1, WebAppPlan(webApp, restEjbs, container.webContexts[webApp.moduleId]).plan, transport);
    }
  }

  /**
   * Deploying an application's web modules never touches the applications
   * recorded, and records web modules of that application only.
   */
  lemma {:induction false} WebAppsCreatedFrame(s: State, webApps: seq<WebAppInfo>,
                                               restEjbs: map<string, EjbRestServiceInfo>,
                                               container: Container, transport: string -> string)
    ensures var t := WebAppsCreated(s, webApps, restEjbs, container, transport).0;
      && t.deployedApplications == s.deployedApplications
      && s.deployedWebApps <= t.deployedWebApps
      && forall w | w in t.deployedWebApps :: w in s.deployedWebApps || w in webApps
    decreases |webApps|
  {
    if webApps != [] {
      WebAppCreatedFrame(s, webApps[0], restEjbs, container, transport);
      var (s1, o) := WebAppCreated(s, webApps[0], restEjbs, container, transport);
      if o.Pass? {
        WebAppsCreatedFrame(s1, webApps[1..], restEjbs, container, transport);
        assert forall w | w in webApps[1..] :: w in webApps;
      }
    }
  }

  /** Deploying an application's web modules keeps the invariant and forgets nothing. */
  lemma {:induction false} ConsistentWebAppsCreated(s: State, webApps: seq<WebAppInfo>,
                                                    restEjbs: map<string, EjbRestServiceInfo>,
                                                    container: Container, transport: string -> string)
    requires Consistent(s)
    ensures Consistent(WebAppsCreated(s, webApps, restEjbs, container, transport).0)
    ensures Grows(s, WebAppsCreated(s, webApps, restEjbs, container, transport).0)
    decreases |webApps|
  {
    if webApps != [] {
      ConsistentWebAppCreated(s, webApps[0], restEjbs, container, transport);
      var (s1, o) := WebAppCreated(s, webApps[0], restEjbs, container, transport);
      if o.Pass? {
        ConsistentWebAppsCreated(s1, webApps[1..], restEjbs, container, transport);
      }
    }
  }

  /**
   * An application is recorded before anything else happens, so it stays
   * recorded whether its deployment passes or fails, and no other
   * application is recorded with it.
   */
  lemma AppCreatedRecordsFirst(s: State, appInfo: AppInfo, container: Container, transport: string -> string,
                               order: seq<string>)
    ensures AppCreated(s, appInfo, container, transport, order).0.deployedApplications
              == s.deployedApplications + {appInfo}
  {
    if appInfo !in s.deployedApplications {
      var s1 := s.(deployedApplications := s.deployedApplications + {appInfo});
      var r := AppRestEjbs(appInfo, container);
      if r.Ok? {
        WebAppsCreatedFrame(s1, appInfo.webApps, r.value, container, transport);
        var (s2, o) := WebAppsCreated(s1, appInfo.webApps, r.value, container, transport);
        ExecuteFrame(s2, StandalonePlan(order, r.value), transport);
      }
    }
  }

  /**
   * A second notification for the same application deploys nothing and
   * changes nothing, whatever the container holds by then and whatever order
   * the second one would visit its REST EJBs in.
   */
  lemma AppNotificationIsIdempotent(s: State, appInfo: AppInfo, container: Container, transport: string -> string,
                                    order: seq<string>, container2: Container, order2: seq<string>)
    ensures var t := AppCreated(s, appInfo, container, transport, order).0;
      AppCreated(t, appInfo, container2, transport, order2) == (t, Pass)
  {
    AppCreatedRecordsFirst(s, appInfo, container, transport, order);
  }

  /**
   * The direct deployments of a standalone module: each is a REST EJB of the
   * application, under that EJB's own root (none for an unclaimed bean), and
   * every REST EJB the order visits is deployed, once per visit.
   */
  lemma {:induction false} StandalonePlanSpec(order: seq<string>, restEjbs: map<string, EjbRestServiceInfo>)
    ensures var plan := StandalonePlan(order, restEjbs);
      && (forall d :: d in plan <==>
            exists k :: k in order && k in restEjbs && d == Deployment(restEjbs[k].path, Ejb(restEjbs[k].context)))
      && ((forall i | 0 <= i < |order| :: order[i] in restEjbs) ==> |plan| == |order|)
    decreases |order|
  {
    if order != [] {
      var init := order[..|order| - 1];
      StandalonePlanSpec(init, restEjbs);
      assert forall d :: d in StandalonePlan(init, restEjbs) <==>
        exists k :: k in init && k in restEjbs && d == Deployment(restEjbs[k].path, Ejb(restEjbs[k].context));
      assert forall k :: k in order <==> k in init || k == order[|order| - 1] by {
        assert order == init + [order[|order| - 1]];
      }
    }
  }

  /**
   * Unclaimed REST EJBs are deployed directly only for a standalone module:
   * for any other application, the order of the bean map plays no part.
   */
  lemma OnlyStandaloneDeploysDirectly(s: State, appInfo: AppInfo, container: Container, transport: string -> string,
                                      order: seq<string>, order2: seq<string>)
    requires !appInfo.standaloneModule
    ensures AppCreated(s, appInfo, container, transport, order) == AppCreated(s, appInfo, container, transport, order2)
  {
  }

  /** An application's deployment keeps the invariant and forgets nothing. */
  lemma ConsistentAppCreated(s: State, appInfo: AppInfo, container: Container, transport: string -> string,
                             order: seq<string>)
    requires Consistent(s)
    ensures Consistent(AppCreated(s, appInfo, container, transport, order).0)
    ensures Grows(s, AppCreated(s, appInfo, container, transport, order).0)
  {
    if appInfo !in s.deployedApplications {
      var s1 := s.(deployedApplications := s.deployedApplications + {appInfo});
      var r := AppRestEjbs(appInfo, container);
      if r.Ok? {
        ConsistentWebAppsCreated(s1, appInfo.webApps, r.value, container, transport);
        var (s2, o) := WebAppsCreated(s1, appInfo.webApps, r.value, container, transport);
        ConsistentExecute(s2, StandalonePlan(order, r.value), transport);
      }
    }
  }

  /**
   * Undeploying one web module: it unbinds exactly the recorded addresses
   * that end with the module's context root and leaves every other address
   * alone.
   */
  lemma {:induction false} UndeployMatchesSuffix(services: seq<string>, root: string)
    ensures var es := Unbinds(services, root);
      && (forall e | e in es :: e.Unbind? && e.address in services && EndsWith(e.address, root))
      && (forall a | a in services && EndsWith(a, root) :: Unbind(a) in es)
      && Logged(es, false) == []
      && (forall a | a in Logged(es, true) :: a in services && EndsWith(a, root))
    decreases |services|
  {
    if services != [] {
      var init := services[..|services| - 1];
      var last := services[|services| - 1];
      var tail := if EndsWith(last, root) then [Unbind(last)] else [];
      UndeployMatchesSuffix(init, root);
      assert services == init + [last];
      LoggedAppend(Unbinds(init, root), tail, false);
      LoggedAppend(Unbinds(init, root), tail, true);
      assert tail == [] || tail[..0] == [];
    }
  }

  /**
   * Undeploying an application's web modules: every event unbinds a recorded
   * address ending with one of their context roots, and every such address is
   * unbound.
   */
  lemma {:induction false} UndeployEventsSpec(webApps: seq<WebAppInfo>, services: seq<string>)
    ensures var es := UndeployEvents(webApps, services);
      && (forall e | e in es ::
            e.Unbind? && e.address in services && exists w | w in webApps :: EndsWith(e.address, w.contextRoot))
      && (forall w, a | w in webApps && a in services && EndsWith(a, w.contextRoot) :: Unbind(a) in es)
      && Logged(es, false) == []
      && (forall a | a in Logged(es, true) :: a in services)
    decreases |webApps|
  {
    if webApps != [] {
      var init := webApps[..|webApps| - 1];
      var last := webApps[|webApps| - 1];
      UndeployEventsSpec(init, services);
      UndeployMatchesSuffix(services, last.contextRoot);
      assert webApps == init + [last];
      LoggedAppend(UndeployEvents(init, services), Unbinds(services, last.contextRoot), false);
      LoggedAppend(UndeployEvents(init, services), Unbinds(services, last.contextRoot), true);
    }
  }

  /**
   * `beforeApplicationDestroyed`: nothing happens for an application that was
   * never deployed; otherwise every recorded address ending with one of its
   * web modules' context roots is unbound, nothing else is, its web modules
   * are forgotten, and neither the applications nor the addresses recorded shrink.
   */
  lemma DestroySpec(s: State, appInfo: AppInfo)
    ensures appInfo !in s.deployedApplications ==> Destroy(s, appInfo) == s
    ensures var t := Destroy(s, appInfo);
      && t.services == s.services && t.deployedApplications == s.deployedApplications
      && |s.events| <= |t.events| && t.events[..|s.events|] == s.events
    ensures appInfo in s.deployedApplications ==>
      var t := Destroy(s, appInfo); var es := t.events[|s.events|..];
      && t.deployedWebApps == s.deployedWebApps - set w | w in appInfo.webApps
      && (forall e | e in es ::
            e.Unbind? && e.address in s.services && exists w | w in appInfo.webApps :: EndsWith(e.address, w.contextRoot))
      && (forall w, a | w in appInfo.webApps && a in s.services && EndsWith(a, w.contextRoot) :: Unbind(a) in es)
  {
    if appInfo in s.deployedApplications {
      var t := Destroy(s, appInfo);
      assert t.events[|s.events|..] == UndeployEvents(appInfo.webApps, s.services);
      UndeployEventsSpec(appInfo.webApps, s.services);
    }
  }

  /** Destroying an application keeps the invariant and forgets no application and no address. */
  lemma ConsistentDestroy(s: State, appInfo: AppInfo)
    requires Consistent(s)
    ensures Consistent(Destroy(s, appInfo))
    ensures Grows(s, Destroy(s, appInfo))
  {
    if appInfo in s.deployedApplications {
      var es := UndeployEvents(appInfo.webApps, s.services);
      UndeployEventsSpec(appInfo.webApps, s.services);
      LoggedAppend(s.events, es, false);
      LoggedAppend(s.events, es, true);
    }
  }

  /**
   * Since an application stays recorded once destroyed, notifying it again
   * after its destruction deploys nothing, whatever the container holds by then.
   */
  lemma NoRedeployAfterDestroy(s: State, appInfo: AppInfo, container: Container, transport: string -> string,
                               order: seq<string>, container2: Container, order2: seq<string>)
    ensures var t := Destroy(AppCreated(s, appInfo, container, transport, order).0, appInfo);
      AppCreated(t, appInfo, container2, transport, order2) == (t, Pass)
  {
    AppCreatedRecordsFirst(s, appInfo, container, transport, order);
    DestroySpec(AppCreated(s, appInfo, container, transport, order).0, appInfo);
  }

  /**
   * `stop` destroying recorded applications one after the other: the
   * applications and addresses recorded stay as they are, and exactly the web
   * modules of the destroyed applications are forgotten.
   */
  lemma {:induction false} StopForgetsWebApps(s: State, order: seq<AppInfo>)
    requires forall i | 0 <= i < |order| :: order[i] in s.deployedApplications
    ensures var t := DestroyAll(s, order);
      && t.services == s.services && t.deployedApplications == s.deployedApplications
      && t.deployedWebApps == s.deployedWebApps - set i, w | 0 <= i < |order| && w in order[i].webApps :: w
    decreases |order|
  {
    if order != [] {
      var init := order[..|order| - 1];
      var last := order[|order| - 1];
      StopForgetsWebApps(s, init);
      var u := DestroyAll(s, init);
      DestroySpec(u, last);
      assert (set i, w | 0 <= i < |order| && w in order[i].webApps :: w)
          == (set i, w | 0 <= i < |init| && w in init[i].webApps :: w) + (set w | w in last.webApps);
    }
  }

  /** Destroying applications one after the other keeps the invariant and forgets no address. */
  lemma {:induction false} ConsistentDestroyAll(s: State, order: seq<AppInfo>)
    requires Consistent(s)
    ensures Consistent(DestroyAll(s, order))
    ensures Grows(s, DestroyAll(s, order))
    decreases |order|
  {
    if order != [] {
      ConsistentDestroyAll(s, order[..|order| - 1]);
      ConsistentDestroy(DestroyAll(s, order[..|order| - 1]), order[|order| - 1]);
    }
  }
}
