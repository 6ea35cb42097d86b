/**
 * The REST service object: the two idempotency sets and the list of bound
 * addresses it updates in place, and the calls it makes on the listener
 * registry, as fields; its notification handlers as methods proved against the
 * state transformations they implement.
 */
module Service {
  import opened Wrappers
  import opened Info
  import opened Paths
  import opened Resolver
  import opened Partition
  import opened Lifecycle

  /** `order` has visited, once each, exactly the elements of `keys` not in `remaining`. */
  ghost predicate Visited<T(!new)>(order: seq<T>, remaining: set<T>, keys: set<T>) {
    && remaining <= keys
    && (forall i, j | 0 <= i < j < |order| :: order[i] != order[j])
    && (forall x :: x in order <==> x in keys && x !in remaining)
  }

  lemma VisitNext<T(!new)>(order: seq<T>, remaining: set<T>, keys: set<T>, x: T)
    requires Visited(order, remaining, keys) && x in remaining
    ensures Visited(order + [x], remaining - {x}, keys)
  {
    assert x !in order;
  }

  class RestService {
    /** The address the listener registry selects for a listener bound under a pattern. */
    const transport: string -> string
    /** Whether an assembler was found at start-up; `stop` undeploys only then. */
    const assemblerPresent: bool

    var deployedApplications: set<AppInfo>
    var deployedWebApps: set<WebAppInfo>
    var services: seq<string>
    /** The calls made so far on the listener registry and on the listeners. */
    var events: seq<Event>

    ghost function Snapshot(): State
      reads this
    {
      State(deployedApplications, deployedWebApps, services, events)
    }

    ghost predicate Valid()
      reads this
    {
      Consistent(Snapshot())
    }

    constructor(transport: string -> string, assemblerPresent: bool)
      ensures Valid()
      ensures this.transport == transport
      ensures this.assemblerPresent == assemblerPresent
      ensures Snapshot() == State({}, {}, [], [])
    {
      this.transport := transport;
      this.assemblerPresent := assemblerPresent;
      deployedApplications := {};
      deployedWebApps := {};
      services := [];
      events := [];
    }

    /** deploySingleton, deployPojo and deployEJB: binds a listener, records its address, publishes the target. */
    method Deploy(d: Deployment) returns (outcome: Outcome<RestError>)
      requires Valid()
      modifies this
      ensures Valid()
      ensures (Snapshot(), outcome) == Step(old(Snapshot()), d, transport)
    {
      ghost var s0 := Snapshot();
      ConsistentStep(s0, d, transport);
      var pattern := ListenerPattern(Address(d.context, TargetClass(d.target).path));
      var address := transport(pattern);
      services := services + [address];
      events := events + [Bind(pattern, address)];
      var fullContext := FullContext(address, d.context);
      if fullContext.None? {
        return Fail(ContextNotInAddress(address, d.context.GetOr("")));
      }
      events := events + [Publish(fullContext.value, d.target)];
      return Pass;
    }

    /** Makes the deployments of a plan in order, stopping at the first exception. */
    method DeployAll(plan: seq<Deployment>) returns (outcome: Outcome<RestError>)
      requires Valid()
      modifies this
      ensures Valid()
      ensures (Snapshot(), outcome) == Execute(old(Snapshot()), plan, transport)
    {
      ghost var s0 := Snapshot();
      var i := 0;
      while i < |plan|
        invariant 0 <= i <= |plan|
        invariant Valid()
        invariant Execute(s0, plan, transport) == Execute(Snapshot(), plan[i..], transport)
      {
        assert plan[i..][1..] == plan[i + 1..];
        outcome := Deploy(plan[i]);
        if outcome.Fail? {
          return;
        }
        i := i + 1;
      }
      assert plan[i..] == [];
      return Pass;
    }

    /**
     * `afterApplicationCreated(WebAppInfo, Map)`; `container` is what the
     * container system holds at the time of the notification.
     */
    method AfterWebAppCreated(webApp: WebAppInfo, restEjbs: map<string, EjbRestServiceInfo>, container: Container)
      returns (outcome: Outcome<RestError>)
      requires Valid()
      modifies this
      ensures Valid()
      ensures (Snapshot(), outcome) == WebAppCreated(old(Snapshot()), webApp, restEjbs, container, transport)
    {
      if webApp.moduleId !in container.webContexts {
        return Pass;
      }
      if webApp in deployedWebApps {
        return Pass;
      }
      deployedWebApps := deployedWebApps + {webApp};
      var webContext := container.webContexts[webApp.moduleId];
      var resolution := ResolveWebApp(webApp, restEjbs, webContext);
      outcome := DeployAll(resolution.plan);
      if outcome.Pass? && resolution.error.Some? {
        outcome := Fail(resolution.error.value);
      }
    }

    /** The per-web-module notifications of an application, stopping at the first exception. */
    method DeployWebApps(webApps: seq<WebAppInfo>, restEjbs: map<string, EjbRestServiceInfo>, container: Container)
      returns (outcome: Outcome<RestError>)
      requires Valid()
      modifies this
      ensures Valid()
      ensures (Snapshot(), outcome) == WebAppsCreated(old(Snapshot()), webApps, restEjbs, container, transport)
    {
      ghost var s0 := Snapshot();
      var i := 0;
      while i < |webApps|
        invariant 0 <= i <= |webApps|
        invariant Valid()
        invariant WebAppsCreated(s0, webApps, restEjbs, container, transport)
               == WebAppsCreated(Snapshot(), webApps[i..], restEjbs, container, transport)
      {
        assert webApps[i..][1..] == webApps[i + 1..];
        outcome := AfterWebAppCreated(webApps[i], restEjbs, container);
        if outcome.Fail? {
          return;
        }
        i := i + 1;
      }
      assert webApps[i..] == [];
      return Pass;
    }

    /**
     * A standalone module's direct deployment of its REST EJBs, visiting the
     * map's keys in an order `order` the model does not fix.
     */
    method DeployStandalone(restEjbs: map<string, EjbRestServiceInfo>)
      returns (outcome: Outcome<RestError>, ghost order: seq<string>)
      requires Valid()
      modifies this
      ensures Valid()
      ensures (Snapshot(), outcome) == Execute(old(Snapshot()), StandalonePlan(order, restEjbs), transport)
      ensures forall i, j | 0 <= i < j < |order| :: order[i] != order[j]
      ensures forall k | k in order :: k in restEjbs
      ensures outcome.Pass? ==> Enumerates(order, restEjbs.Keys)
    {
      ghost var s0 := Snapshot();
      order := [];
      var remaining := restEjbs.Keys;
      while remaining != {}
        invariant Valid()
        invariant Visited(order, remaining, restEjbs.Keys)
        invariant (Snapshot(), Pass) == Execute(s0, StandalonePlan(order, restEjbs), transport)
        decreases remaining
      {
        var clazz :| clazz in remaining;
        VisitNext(order, remaining, restEjbs.Keys, clazz);
        var d := Deployment(restEjbs[clazz].path, Ejb(restEjbs[clazz].context));
        ExecuteSnoc(s0, StandalonePlan(order, restEjbs), d, transport);
        StandalonePlanSnoc(order, clazz, restEjbs);
        order := order + [clazz];
        outcome := Deploy(d);
        if outcome.Fail? {
          return;
        }
        remaining := remaining - {clazz};
      }
      return Pass, order;
    }

    /**
     * `afterApplicationCreated(AppInfo)`, against what the container system
     * holds at the time of the notification. `order` is the order in which a
     * standalone module's REST EJBs were visited for direct deployment.
     */
    method AfterApplicationCreated(appInfo: AppInfo, container: Container)
      returns (outcome: Outcome<RestError>, ghost order: seq<string>)
      requires Valid()
      modifies this
      ensures Valid()
      ensures (Snapshot(), outcome) == AppCreated(old(Snapshot()), appInfo, container, transport, order)
      ensures forall i, j | 0 <= i < j < |order| :: order[i] != order[j]
      ensures AppRestEjbs(appInfo, container).Ok? ==>
        forall k | k in order :: k in AppRestEjbs(appInfo, container).value
      ensures appInfo !in old(deployedApplications) && appInfo.standaloneModule && outcome.Pass? ==>
        AppRestEjbs(appInfo, container).Ok? && Enumerates(order, AppRestEjbs(appInfo, container).value.Keys)
    {
      order := [];
      if appInfo in deployedApplications {
        return Pass, order;
      }
      deployedApplications := deployedApplications + {appInfo};
      var beanContexts := CollectBeanContexts(appInfo, container.beanContexts);
      var collected := CollectRestEjbs(appInfo.webApps, beanContexts);
      if collected.Err? {
        return Fail(collected.error), order;
      }
      var restEjbs := collected.value;
      outcome := DeployWebApps(appInfo.webApps, restEjbs, container);
      if outcome.Fail? || !appInfo.standaloneModule {
        return;
      }
      outcome, order := DeployStandalone(restEjbs);
    }

    /** `undeployRestObject`: removes the listener bound at `address` and undeploys it. */
    method UndeployRestObject(address: string)
      modifies this
      ensures events == old(events) + [Unbind(address)]
      ensures services == old(services) && deployedApplications == old(deployedApplications)
      ensures deployedWebApps == old(deployedWebApps)
    {
      events := events + [Unbind(address)];
    }

    /** The inner loop of `beforeApplicationDestroyed`: undeploys every address ending with `root`, in order. */
    method UndeployMatching(root: string)
      modifies this
      ensures events == old(events) + Unbinds(services, root)
      ensures services == old(services) && deployedApplications == old(deployedApplications)
      ensures deployedWebApps == old(deployedWebApps)
    {
      var j := 0;
      while j < |services|
        invariant 0 <= j <= |services|
        invariant services == old(services) && deployedApplications == old(deployedApplications)
        invariant deployedWebApps == old(deployedWebApps)
        invariant events == old(events) + Unbinds(services[..j], root)
      {
        var address := services[j];
        assert services[..j + 1][..j] == services[..j];
        if EndsWith(address, root) {
          UndeployRestObject(address);
        }
        j := j + 1;
      }
      assert services[..j] == services;
    }

    /** The loop of `beforeApplicationDestroyed` over an application's web modules. */
    method UndeployWebApps(webApps: seq<WebAppInfo>)
      modifies this
      ensures events == old(events) + UndeployEvents(webApps, services)
      ensures deployedWebApps == old(deployedWebApps) - set w | w in webApps
      ensures services == old(services) && deployedApplications == old(deployedApplications)
    {
      var i := 0;
      while i < |webApps|
        invariant 0 <= i <= |webApps|
        invariant services == old(services) && deployedApplications == old(deployedApplications)
        invariant events == old(events) + UndeployEvents(webApps[..i], services)
        invariant forall w :: w in deployedWebApps <==> w in old(deployedWebApps) && w !in webApps[..i]
      {
        assert webApps[..i + 1][..i] == webApps[..i];
        assert forall w :: w in webApps[..i + 1] <==> w in webApps[..i] || w == webApps[i] by {
          assert webApps[..i + 1] == webApps[..i] + [webApps[i]];
        }
        UndeployMatching(webApps[i].contextRoot);
        deployedWebApps := deployedWebApps - {webApps[i]};
        i := i + 1;
      }
      assert webApps[..i] == webApps;
    }

    /** `beforeApplicationDestroyed`. */
    method BeforeApplicationDestroyed(appInfo: AppInfo)
      requires Valid()
      modifies this
      ensures Valid()
      ensures Snapshot() == Destroy(old(Snapshot()), appInfo)
    {
      if appInfo !in deployedApplications {
        return;
      }
      ConsistentDestroy(Snapshot(), appInfo);
      UndeployWebApps(appInfo.webApps);
    }

    /** `stop`: when an assembler is present, destroys every recorded application, in the set's iteration order. */
    method Stop() returns (ghost order: seq<AppInfo>)
      requires Valid()
      modifies this
      ensures Valid()
      ensures assemblerPresent ==>
        Enumerates(order, old(deployedApplications)) && Snapshot() == DestroyAll(old(Snapshot()), order)
      ensures !assemblerPresent ==> Snapshot() == old(Snapshot())
    {
      order := [];
      if !assemblerPresent {
        return;
      }
      ghost var s0 := Snapshot();
      var apps := deployedApplications;
      while apps != {}
        invariant Valid()
        invariant apps <= s0.deployedApplications
        invariant Snapshot() == DestroyAll(s0, order)
        invariant forall a :: a in order <==> a in s0.deployedApplications - apps
        invariant forall i, j | 0 <= i < j < |order| :: order[i] != order[j]
        decreases apps
      {
        var app :| app in apps;
        assert app !in order;
        BeforeApplicationDestroyed(app);
        assert (order + [app])[..|order|] == order;
        order := order + [app];
        apps := apps - {app};
      }
    }
  }
}
