/**
 * The resolution policy of `afterApplicationCreated(WebAppInfo, Map)`: which
 * endpoints a web module publishes, under which context, and in which order.
 *
 * JAX-RS 1.1 (JSR 311), section 2.1 "Configuration", makes an application-supplied
 * subclass of `Application` the one portable way to configure an application
 * and lets an implementation offer class scanning besides. The service deploys
 * exactly what the `Application` subclasses list when a module has any, and the
 * scanned classes otherwise. In both cases a class registered as a REST EJB is
 * published as that EJB.
 */
module Resolver {
  import opened Wrappers
  import opened Info
  import opened Paths

  /** The deployments resolved in order, and the exception that cut resolution short, if any. */
  datatype Resolution = Resolution(plan: seq<Deployment>, error: Option<RestError>)

  function Prepend(ds: seq<Deployment>, r: Resolution): Resolution {
    Resolution(ds + r.plan, r.error)
  }

  /**
   * Associativity of concatenation as a lemma: calling it in a loop body gives
   * the solver this one instance without the cost of proving it there.
   */
  lemma AppendAssoc(a: seq<Deployment>, b: seq<Deployment>, c: seq<Deployment>)
    ensures a + (b + c) == (a + b) + c
  {
  }

  lemma PrependPrepend(a: seq<Deployment>, b: seq<Deployment>, r: Resolution)
    ensures Prepend(a, Prepend(b, r)) == Prepend(a + b, r)
  {
    assert a + (b + r.plan) == (a + b) + r.plan;
  }

  /** Scanned classes, in order: a REST EJB by that name, else the loaded class; a class that does not load stops resolution. */
  function ScannedPlan(classes: seq<string>, contextRoot: string, restEjbs: map<string, EjbRestServiceInfo>,
                       loader: map<string, ResourceClass>): Resolution
  {
    if classes == [] then Resolution([], None)
    else
      var c := classes[0];
      if c in restEjbs then
        Prepend([Deployment(Some(contextRoot), Ejb(restEjbs[c].context))],
                ScannedPlan(classes[1..], contextRoot, restEjbs, loader))
      else if c in loader then
        Prepend([Deployment(Some(contextRoot), Pojo(loader[c], None))],
                ScannedPlan(classes[1..], contextRoot, restEjbs, loader))
      else
        Resolution([], Some(ClassNotFound(c)))
  }

  /** The singletons of one `Application`, in order; `null` entries are skipped. */
  function SingletonsPlan(singletons: seq<Option<Instance>>, prefix: string, app: string,
                          restEjbs: map<string, EjbRestServiceInfo>): seq<Deployment>
  {
    if singletons == [] then []
    else
      var rest := SingletonsPlan(singletons[1..], prefix, app, restEjbs);
      match singletons[0]
      case None => rest
      case Some(o) =>
        var target := if o.cls.name in restEjbs then Ejb(restEjbs[o.cls.name].context) else Singleton(o, app);
        [Deployment(Some(prefix), target)] + rest
  }

  /** The classes of one `Application`, in order. */
  function ClassesPlan(classes: seq<ResourceClass>, prefix: string, app: string,
                       restEjbs: map<string, EjbRestServiceInfo>): seq<Deployment>
  {
    if classes == [] then []
    else
      var c := classes[0];
      var target := if c.name in restEjbs then Ejb(restEjbs[c.name].context) else Pojo(c, Some(app));
      [Deployment(Some(prefix), target)] + ClassesPlan(classes[1..], prefix, app, restEjbs)
  }

  function ApplicationPlan(a: ApplicationClass, prefix: string, app: string,
                           restEjbs: map<string, EjbRestServiceInfo>): seq<Deployment>
  {
    SingletonsPlan(a.singletons, prefix, app, restEjbs) + ClassesPlan(a.classes, prefix, app, restEjbs)
  }

  /** The listed `Application` subclasses, in order; one that cannot be created stops resolution. */
  function ApplicationsPlan(apps: seq<string>, contextRoot: string, restEjbs: map<string, EjbRestServiceInfo>,
                            wc: WebContext): Resolution
  {
    if apps == [] then Resolution([], None)
    else if apps[0] !in wc.applications then Resolution([], Some(ApplicationNotCreated(apps[0])))
    else
      var a := wc.applications[apps[0]];
      Prepend(ApplicationPlan(a, AppPrefix(contextRoot, a.path), apps[0], restEjbs),
              ApplicationsPlan(apps[1..], contextRoot, restEjbs, wc))
  }

  /** What one web module publishes. */
  function WebAppPlan(webApp: WebAppInfo, restEjbs: map<string, EjbRestServiceInfo>, wc: WebContext): Resolution {
    if |webApp.restApplications| == 0 then
      ScannedPlan(webApp.restClass, webApp.contextRoot, restEjbs, wc.classes)
    else
      ApplicationsPlan(webApp.restApplications, webApp.contextRoot, restEjbs, wc)
  }

  /** The non-null singletons, in order. */
  function NonNull(singletons: seq<Option<Instance>>): (r: seq<Instance>)
    ensures forall o :: o in r <==> Some(o) in singletons
  {
    if singletons == [] then []
    else
      match singletons[0]
      case None => NonNull(singletons[1..])
      case Some(o) => [o] + NonNull(singletons[1..])
  }

  /**
   * Scanned classes: each class deploys exactly once, in order, under the
   * module's context root, as the REST EJB of that name when there is one and
   * as the loaded class otherwise; resolution fails exactly when some class is
   * neither, and then at the first such class, with every class before it deployed.
   */
  lemma {:induction false} ScannedPlanPolicy(classes: seq<string>, contextRoot: string,
                                             restEjbs: map<string, EjbRestServiceInfo>,
                                             loader: map<string, ResourceClass>)
    ensures var r := ScannedPlan(classes, contextRoot, restEjbs, loader);
      && |r.plan| <= |classes|
      && (r.error.None? <==> forall c | c in classes :: c in restEjbs || c in loader)
      && (r.error.None? ==> |r.plan| == |classes|)
      && (r.error.Some? ==>
            && |r.plan| < |classes|
            && r.error == Some(ClassNotFound(classes[|r.plan|]))
            && classes[|r.plan|] !in restEjbs && classes[|r.plan|] !in loader)
      && (forall i | 0 <= i < |r.plan| ::
            && r.plan[i].context == Some(contextRoot)
            && (classes[i] in restEjbs ==> r.plan[i].target == Ejb(restEjbs[classes[i]].context))
            && (classes[i] !in restEjbs ==> classes[i] in loader && r.plan[i].target == Pojo(loader[classes[i]], None)))
  {
    if classes != [] {
      var rest := classes[1..];
      ScannedPlanPolicy(rest, contextRoot, restEjbs, loader);
      assert forall c :: c in classes <==> c == classes[0] || c in rest;
      var r := ScannedPlan(classes, contextRoot, restEjbs, loader);
      var tail := ScannedPlan(rest, contextRoot, restEjbs, loader);
      if classes[0] in restEjbs || classes[0] in loader {
        assert r.plan == [r.plan[0]] + tail.plan;
        forall i | 1 <= i < |r.plan|
          ensures classes[i] == rest[i - 1] && r.plan[i] == tail.plan[i - 1]
        {
        }
      }
    }
  }

  /**
   * An `Application`'s singletons: `null` entries are skipped, every other
   * one deploys exactly once, in order, under the prefix, as the REST EJB
   * named by its runtime class when there is one and as the singleton itself otherwise.
   */
  lemma {:induction false} SingletonsPlanPolicy(singletons: seq<Option<Instance>>, prefix: string, app: string,
                                                restEjbs: map<string, EjbRestServiceInfo>)
    ensures var plan := SingletonsPlan(singletons, prefix, app, restEjbs);
      var present := NonNull(singletons);
      && |plan| == |present|
      && forall i | 0 <= i < |plan| ::
           && plan[i].context == Some(prefix)
           && (present[i].cls.name in restEjbs ==> plan[i].target == Ejb(restEjbs[present[i].cls.name].context))
           && (present[i].cls.name !in restEjbs ==> plan[i].target == Singleton(present[i], app))
  {
    if singletons != [] {
      SingletonsPlanPolicy(singletons[1..], prefix, app, restEjbs);
      var plan := SingletonsPlan(singletons, prefix, app, restEjbs);
      var tail := SingletonsPlan(singletons[1..], prefix, app, restEjbs);
      var present := NonNull(singletons);
      if singletons[0].Some? {
        assert present == [singletons[0].value] + NonNull(singletons[1..]);
        assert plan == [plan[0]] + tail;
        forall i | 1 <= i < |plan|
          ensures present[i] == NonNull(singletons[1..])[i - 1] && plan[i] == tail[i - 1]
        {
        }
      }
    }
  }

  /**
   * An `Application`'s classes: each deploys exactly once, in order, under the
   * prefix, as the REST EJB of that name when there is one and as the class
   * (tied to its `Application`) otherwise.
   */
  lemma {:induction false} ClassesPlanPolicy(classes: seq<ResourceClass>, prefix: string, app: string,
                                             restEjbs: map<string, EjbRestServiceInfo>)
    ensures var plan := ClassesPlan(classes, prefix, app, restEjbs);
      && |plan| == |classes|
      && forall i | 0 <= i < |plan| ::
           && plan[i].context == Some(prefix)
           && (classes[i].name in restEjbs ==> plan[i].target == Ejb(restEjbs[classes[i].name].context))
           && (classes[i].name !in restEjbs ==> plan[i].target == Pojo(classes[i], Some(app)))
  {
    if classes != [] {
      ClassesPlanPolicy(classes[1..], prefix, app, restEjbs);
      var plan := ClassesPlan(classes, prefix, app, restEjbs);
      var tail := ClassesPlan(classes[1..], prefix, app, restEjbs);
      assert plan == [plan[0]] + tail;
      forall i | 1 <= i < |plan|
        ensures classes[i] == classes[1..][i - 1] && plan[i] == tail[i - 1]
      {
      }
    }
  }

  /**
   * What one `Application` deploys, element by element: everything under its
   * prefix; a class or a singleton only when no REST EJB has its name; an EJB
   * only as the context of a registered REST EJB.
   */
  lemma ApplicationPlanTargets(a: ApplicationClass, prefix: string, app: string,
                               restEjbs: map<string, EjbRestServiceInfo>)
    ensures forall d | d in ApplicationPlan(a, prefix, app, restEjbs) ::
      && d.context == Some(prefix)
      && (d.target.Pojo? ==> d.target.app == Some(app) && d.target.cls in a.classes && d.target.cls.name !in restEjbs)
      && (d.target.Singleton? ==>
            d.target.application == app && Some(d.target.instance) in a.singletons
            && d.target.instance.cls.name !in restEjbs)
      && (d.target.Ejb? ==> exists name | name in restEjbs :: restEjbs[name].context == d.target.bean)
  {
    var sp := SingletonsPlan(a.singletons, prefix, app, restEjbs);
    var cp := ClassesPlan(a.classes, prefix, app, restEjbs);
    SingletonsPlanPolicy(a.singletons, prefix, app, restEjbs);
    ClassesPlanPolicy(a.classes, prefix, app, restEjbs);
    var present := NonNull(a.singletons);
    forall d: Deployment | d in sp + cp
      ensures d.context == Some(prefix)
      ensures d.target.Pojo? ==> d.target.app == Some(app) && d.target.cls in a.classes && d.target.cls.name !in restEjbs
      ensures d.target.Singleton? ==>
            d.target.application == app && Some(d.target.instance) in a.singletons
            && d.target.instance.cls.name !in restEjbs
      ensures d.target.Ejb? ==> exists name | name in restEjbs :: restEjbs[name].context == d.target.bean
    {
      if d in sp {
        var i :| 0 <= i < |sp| && sp[i] == d;
        assert present[i] in present;
        if present[i].cls.name in restEjbs {
          assert restEjbs[present[i].cls.name].context == d.target.bean;
        }
      } else {
        assert d in cp;
        var i :| 0 <= i < |cp| && cp[i] == d;
        if a.classes[i].name in restEjbs {
          assert restEjbs[a.classes[i].name].context == d.target.bean;
        }
      }
    }
  }

  /**
   * `Application` subclasses: resolution fails exactly when one of them cannot
   * be created, and then at the first such; everything resolved comes from a
   * listed, created `Application`, under that `Application`'s prefix.
   */
  lemma {:induction false} ApplicationsPlanPolicy(apps: seq<string>, contextRoot: string,
                                                  restEjbs: map<string, EjbRestServiceInfo>, wc: WebContext)
    ensures var r := ApplicationsPlan(apps, contextRoot, restEjbs, wc);
      && (r.error.None? <==> forall a | a in apps :: a in wc.applications)
      && (r.error.Some? ==>
            exists k :: 0 <= k < |apps| && apps[k] !in wc.applications
              && r.error == Some(ApplicationNotCreated(apps[k]))
              && forall j | 0 <= j < k :: apps[j] in wc.applications)
      && (forall d | d in r.plan ::
            exists k :: 0 <= k < |apps| && apps[k] in wc.applications
              && (forall j | 0 <= j < k :: apps[j] in wc.applications)
              && d in ApplicationPlan(wc.applications[apps[k]], AppPrefix(contextRoot, wc.applications[apps[k]].path),
                                      apps[k], restEjbs))
  {
    if apps != [] {
      var rest := apps[1..];
      ApplicationsPlanPolicy(rest, contextRoot, restEjbs, wc);
      assert forall a :: a in apps <==> a == apps[0] || a in rest;
      var r := ApplicationsPlan(apps, contextRoot, restEjbs, wc);
      var tail := ApplicationsPlan(rest, contextRoot, restEjbs, wc);
      if apps[0] in wc.applications {
        var a := wc.applications[apps[0]];
        var first := ApplicationPlan(a, AppPrefix(contextRoot, a.path), apps[0], restEjbs);
        assert r.plan == first + tail.plan;
        if r.error.Some? {
          var k :| 0 <= k < |rest| && rest[k] !in wc.applications
              && tail.error == Some(ApplicationNotCreated(rest[k]))
              && forall j | 0 <= j < k :: rest[j] in wc.applications;
          assert apps[k + 1] == rest[k];
          forall j | 0 <= j < k + 1 ensures apps[j] in wc.applications {
            if j > 0 { assert apps[j] == rest[j - 1]; }
          }
        }
        forall d | d in r.plan
          ensures exists k :: (0 <= k < |apps| && apps[k] in wc.applications
              && (forall j | 0 <= j < k :: apps[j] in wc.applications)
              && d in ApplicationPlan(wc.applications[apps[k]], AppPrefix(contextRoot, wc.applications[apps[k]].path),
                                      apps[k], restEjbs))
        {
          if d in first {
            assert apps[0] in wc.applications;
          } else {
            var k :| 0 <= k < |rest| && rest[k] in wc.applications
              && (forall j | 0 <= j < k :: rest[j] in wc.applications)
              && d in ApplicationPlan(wc.applications[rest[k]], AppPrefix(contextRoot, wc.applications[rest[k]].path),
                                      rest[k], restEjbs);
            assert apps[k + 1] == rest[k];
            forall j | 0 <= j < k + 1 ensures apps[j] in wc.applications {
              if j > 0 { assert apps[j] == rest[j - 1]; }
            }
          }
        }
      } else {
        assert r.error == Some(ApplicationNotCreated(apps[0]));
      }
    }
  }

  /** The number of listed `Application` subclasses, from the first, that can all be created. */
  function CreatedPrefix(apps: seq<string>, wc: WebContext): (n: nat)
    ensures n <= |apps|
    ensures forall j | 0 <= j < n :: apps[j] in wc.applications
    ensures n < |apps| ==> apps[n] !in wc.applications
    decreases |apps|
  {
    if apps == [] || apps[0] !in wc.applications then 0
    else 1 + CreatedPrefix(apps[1..], wc)
  }

  /** The plans of created `Application` subclasses, one after the other. */
  function AllPlans(apps: seq<string>, contextRoot: string, restEjbs: map<string, EjbRestServiceInfo>,
                    wc: WebContext): seq<Deployment>
    requires forall j | 0 <= j < |apps| :: apps[j] in wc.applications
    decreases |apps|
  {
    if apps == [] then []
    else
      var a := wc.applications[apps[0]];
      ApplicationPlan(a, AppPrefix(contextRoot, a.path), apps[0], restEjbs)
        + AllPlans(apps[1..], contextRoot, restEjbs, wc)
  }

  /**
   * `Application` subclasses deploy in turn: every one before the first that
   * cannot be created contributes its whole plan, in order, and nothing after
   * that one is reached; the error names that one.
   */
  lemma {:induction false} ApplicationsPlanStopsAtFirstMissing(apps: seq<string>, contextRoot: string,
                                                               restEjbs: map<string, EjbRestServiceInfo>,
                                                               wc: WebContext)
    ensures var r := ApplicationsPlan(apps, contextRoot, restEjbs, wc); var f := CreatedPrefix(apps, wc);
      && r.plan == AllPlans(apps[..f], contextRoot, restEjbs, wc)
      && r.error == (if f == |apps| then None else Some(ApplicationNotCreated(apps[f])))
    decreases |apps|
  {
    if apps != [] && apps[0] in wc.applications {
      var rest := apps[1..];
      ApplicationsPlanStopsAtFirstMissing(rest, contextRoot, restEjbs, wc);
      var f := CreatedPrefix(apps, wc);
      assert apps[..f][0] == apps[0] && apps[..f][1..] == rest[..f - 1];
    }
  }

  /**
   * `Application` configuration is exclusive, not additive: once a web module
   * lists an `Application` subclass, its scanned classes play no part, and every
   * class or singleton deployed belongs to one of the listed `Application`s.
   */
  lemma ApplicationConfigurationIsExclusive(webApp: WebAppInfo, restEjbs: map<string, EjbRestServiceInfo>,
                                            wc: WebContext)
    requires |webApp.restApplications| > 0
    ensures forall scanned: seq<string> ::
      WebAppPlan(webApp.(restClass := scanned), restEjbs, wc) == WebAppPlan(webApp, restEjbs, wc)
    ensures forall d | d in WebAppPlan(webApp, restEjbs, wc).plan ::
      && (d.target.Pojo? ==> d.target.app.Some? && d.target.app.value in webApp.restApplications)
      && (d.target.Singleton? ==> d.target.application in webApp.restApplications)
  {
    var apps := webApp.restApplications;
    ApplicationsPlanPolicy(apps, webApp.contextRoot, restEjbs, wc);
    forall d | d in WebAppPlan(webApp, restEjbs, wc).plan
      ensures d.target.Pojo? ==> d.target.app.Some? && d.target.app.value in apps
      ensures d.target.Singleton? ==> d.target.application in apps
    {
      var k :| 0 <= k < |apps| && apps[k] in wc.applications
        && d in ApplicationPlan(wc.applications[apps[k]], AppPrefix(webApp.contextRoot, wc.applications[apps[k]].path),
                                apps[k], restEjbs);
      var a := wc.applications[apps[k]];
      ApplicationPlanTargets(a, AppPrefix(webApp.contextRoot, a.path), apps[k], restEjbs);
    }
  }

  /** A class loader that returns, for each name, a class of that name. */
  predicate NamesConsistent(wc: WebContext) {
    forall c | c in wc.classes :: wc.classes[c].name == c
  }

  /**
   * EJB precedence: no class or singleton whose class name is registered as a
   * REST EJB is ever deployed directly, and every EJB deployed is the context of
   * a registered REST EJB.
   */
  lemma EjbPrecedence(webApp: WebAppInfo, restEjbs: map<string, EjbRestServiceInfo>, wc: WebContext)
    requires NamesConsistent(wc)
    ensures forall d | d in WebAppPlan(webApp, restEjbs, wc).plan ::
      && (d.target.Pojo? ==> d.target.cls.name !in restEjbs)
      && (d.target.Singleton? ==> d.target.instance.cls.name !in restEjbs)
      && (d.target.Ejb? ==> exists name | name in restEjbs :: restEjbs[name].context == d.target.bean)
  {
    var plan := WebAppPlan(webApp, restEjbs, wc).plan;
    if |webApp.restApplications| == 0 {
      var classes := webApp.restClass;
      ScannedPlanPolicy(classes, webApp.contextRoot, restEjbs, wc.classes);
      forall d | d in plan
        ensures d.target.Pojo? ==> d.target.cls.name !in restEjbs
        ensures d.target.Singleton? ==> d.target.instance.cls.name !in restEjbs
        ensures d.target.Ejb? ==> exists name | name in restEjbs :: restEjbs[name].context == d.target.bean
      {
        var i :| 0 <= i < |plan| && plan[i] == d;
        if classes[i] in restEjbs {
          assert restEjbs[classes[i]].context == d.target.bean;
        }
      }
    } else {
      var apps := webApp.restApplications;
      ApplicationsPlanPolicy(apps, webApp.contextRoot, restEjbs, wc);
      forall d | d in plan
        ensures d.target.Pojo? ==> d.target.cls.name !in restEjbs
        ensures d.target.Singleton? ==> d.target.instance.cls.name !in restEjbs
        ensures d.target.Ejb? ==> exists name | name in restEjbs :: restEjbs[name].context == d.target.bean
      {
        var k :| 0 <= k < |apps| && apps[k] in wc.applications
          && d in ApplicationPlan(wc.applications[apps[k]], AppPrefix(webApp.contextRoot, wc.applications[apps[k]].path),
                                  apps[k], restEjbs);
        var a := wc.applications[apps[k]];
        ApplicationPlanTargets(a, AppPrefix(webApp.contextRoot, a.path), apps[k], restEjbs);
      }
    }
  }

  /** Resolution with the source's loops: the scanned classes, or each `Application`'s singletons then classes. */
  method ResolveWebApp(webApp: WebAppInfo, restEjbs: map<string, EjbRestServiceInfo>, wc: WebContext)
    returns (r: Resolution)
    ensures r == WebAppPlan(webApp, restEjbs, wc)
  {
    if |webApp.restApplications| == 0 {
      r := ResolveScanned(webApp.restClass, webApp.contextRoot, restEjbs, wc.classes);
    } else {
      r := ResolveApplications(webApp.restApplications, webApp.contextRoot, restEjbs, wc);
    }
  }

  /** The loop over the listed `Application` subclasses, ending at the first that cannot be created. */
  method ResolveApplications(apps: seq<string>, contextRoot: string, restEjbs: map<string, EjbRestServiceInfo>,
                             wc: WebContext)
    returns (r: Resolution)
    ensures r == ApplicationsPlan(apps, contextRoot, restEjbs, wc)
  {
    var plan: seq<Deployment> := [];
    var i := 0;
    while i < |apps|
      invariant 0 <= i <= |apps|
      invariant ApplicationsPlan(apps, contextRoot, restEjbs, wc)
             == Prepend(plan, ApplicationsPlan(apps[i..], contextRoot, restEjbs, wc))
    {
      assert apps[i..][1..] == apps[i + 1..];
      var app := apps[i];
      if app !in wc.applications {
        return Resolution(plan, Some(ApplicationNotCreated(app)));
      }
      var deployments := ResolveApplication(app, wc.applications[app], contextRoot, restEjbs);
      PrependPrepend(plan, deployments, ApplicationsPlan(apps[i + 1..], contextRoot, restEjbs, wc));
      plan := plan + deployments;
      i := i + 1;
    }
    return Resolution(plan, None);
  }

  /** The scanned-class loop: each class is an EJB, a loaded class, or the end of resolution. */
  method ResolveScanned(classes: seq<string>, contextRoot: string, restEjbs: map<string, EjbRestServiceInfo>,
                        loader: map<string, ResourceClass>)
    returns (r: Resolution)
    ensures r == ScannedPlan(classes, contextRoot, restEjbs, loader)
  {
    var plan: seq<Deployment> := [];
    var i := 0;
    while i < |classes|
      invariant 0 <= i <= |classes|
      invariant ScannedPlan(classes, contextRoot, restEjbs, loader)
             == Prepend(plan, ScannedPlan(classes[i..], contextRoot, restEjbs, loader))
    {
      var clazz := classes[i];
      ghost var rest := ScannedPlan(classes[i + 1..], contextRoot, restEjbs, loader);
      assert classes[i..][0] == clazz && classes[i..][1..] == classes[i + 1..];
      if clazz in restEjbs {
        var d := Deployment(Some(contextRoot), Ejb(restEjbs[clazz].context));
        assert ScannedPlan(classes[i..], contextRoot, restEjbs, loader) == Prepend([d], rest);
        PrependPrepend(plan, [d], rest);
        plan := plan + [d];
      } else if clazz in loader {
        var d := Deployment(Some(contextRoot), Pojo(loader[clazz], None));
        assert ScannedPlan(classes[i..], contextRoot, restEjbs, loader) == Prepend([d], rest);
        PrependPrepend(plan, [d], rest);
        plan := plan + [d];
      } else {
        return Resolution(plan, Some(ClassNotFound(clazz)));
      }
      i := i + 1;
    }
    assert classes[i..] == [];
    return Resolution(plan, None);
  }

  /** The `Application` prefix, accumulated as the source does. */
  method ApplicationPrefix(contextRoot: string, path: Option<string>) returns (appPrefix: string)
    ensures appPrefix == AppPrefix(contextRoot, path)
  {
    appPrefix := contextRoot;
    if !EndsWith(appPrefix, "/") {
      appPrefix := appPrefix + "/";
    }
    if path.Some? {
      var appPath := path.value;
      if StartsWith(appPath, "/") {
        appPrefix := appPrefix + appPath[1..];
      } else {
        appPrefix := appPrefix + appPath;
      }
    }
  }

  /** One `Application`: its prefix, then its singletons, then its classes. */
  method ResolveApplication(app: string, appInstance: ApplicationClass, contextRoot: string,
                            restEjbs: map<string, EjbRestServiceInfo>)
    returns (plan: seq<Deployment>)
    ensures plan == ApplicationPlan(appInstance, AppPrefix(contextRoot, appInstance.path), app, restEjbs)
  {
    var appPrefix := ApplicationPrefix(contextRoot, appInstance.path);
    var singletons := ResolveSingletons(appInstance.singletons, appPrefix, app, restEjbs);
    var classes := ResolveClasses(appInstance.classes, appPrefix, app, restEjbs);
    plan := singletons + classes;
  }

  /** The loop over an `Application`'s singletons, skipping `null` entries. */
  method ResolveSingletons(singletons: seq<Option<Instance>>, appPrefix: string, app: string,
                           restEjbs: map<string, EjbRestServiceInfo>)
    returns (plan: seq<Deployment>)
    ensures plan == SingletonsPlan(singletons, appPrefix, app, restEjbs)
  {
    plan := [];
    var j := 0;
    while j < |singletons|
      invariant 0 <= j <= |singletons|
      invariant SingletonsPlan(singletons, appPrefix, app, restEjbs)
             == plan + SingletonsPlan(singletons[j..], appPrefix, app, restEjbs)
    {
      assert singletons[j..][1..] == singletons[j + 1..];
      ghost var rest := SingletonsPlan(singletons[j + 1..], appPrefix, app, restEjbs);
      match singletons[j] {
        case None =>
        case Some(o) =>
          var d := if o.cls.name in restEjbs then Deployment(Some(appPrefix), Ejb(restEjbs[o.cls.name].context))
                   else Deployment(Some(appPrefix), Singleton(o, app));
          AppendAssoc(plan, [d], rest);
          plan := plan + [d];
      }
      j := j + 1;
    }
    assert singletons[j..] == [];
  }

  /** The loop over an `Application`'s classes. */
  method ResolveClasses(classes: seq<ResourceClass>, appPrefix: string, app: string,
                        restEjbs: map<string, EjbRestServiceInfo>)
    returns (plan: seq<Deployment>)
    ensures plan == ClassesPlan(classes, appPrefix, app, restEjbs)
  {
    plan := [];
    var k := 0;
    while k < |classes|
      invariant 0 <= k <= |classes|
      invariant ClassesPlan(classes, appPrefix, app, restEjbs)
             == plan + ClassesPlan(classes[k..], appPrefix, app, restEjbs)
    {
      assert classes[k..][1..] == classes[k + 1..];
      var clazz := classes[k];
      ghost var rest := ClassesPlan(classes[k + 1..], appPrefix, app, restEjbs);
      var d := if clazz.name in restEjbs then Deployment(Some(appPrefix), Ejb(restEjbs[clazz.name].context))
               else Deployment(Some(appPrefix), Pojo(clazz, Some(app)));
      AppendAssoc(plan, [d], rest);
      plan := plan + [d];
      k := k + 1;
    }
    assert classes[k..] == [];
  }
}
