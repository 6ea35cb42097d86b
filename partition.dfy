/**
 * How an application's REST EJBs are shared out between its web modules.
 *
 * Every enterprise bean declared a REST service and alive in the container is
 * keyed by its bean class. A web module that names one of these classes claims
 * it, and it is published under that module's context root (a later module
 * overriding an earlier one). Every live REST bean no module claims is still
 * published, with no context root. A module that names a class with no live
 * REST bean aborts the whole application with an error.
 */
module Partition {
  import opened Wrappers
  import opened Info

  /** A bean that is published: declared a REST service, with a live context in the container. */
  predicate IsLiveRestBean(b: EnterpriseBeanInfo, live: map<string, BeanContext>) {
    b.restService && b.ejbDeploymentId in live
  }

  /** `m` after putting, bean by bean, each live REST bean's context under its bean class. */
  function AddBeans(m: map<string, BeanContext>, beans: seq<EnterpriseBeanInfo>,
                    live: map<string, BeanContext>): map<string, BeanContext>
    decreases |beans|
  {
    if beans == [] then m
    else
      var b := beans[0];
      AddBeans(if IsLiveRestBean(b, live) then m[b.ejbClass := live[b.ejbDeploymentId]] else m, beans[1..], live)
  }

  /** `m` after adding the beans of every jar, jar by jar. */
  function AddJars(m: map<string, BeanContext>, jars: seq<EjbJarInfo>,
                   live: map<string, BeanContext>): map<string, BeanContext>
    decreases |jars|
  {
    if jars == [] then m else AddJars(AddBeans(m, jars[0].enterpriseBeans, live), jars[1..], live)
  }

  /** The REST bean contexts of an application, keyed by bean class. */
  function RestBeanContexts(appInfo: AppInfo, live: map<string, BeanContext>): map<string, BeanContext> {
    AddJars(map[], appInfo.ejbJars, live)
  }

  /** All beans of the jars, in declaration order. */
  function AllBeans(jars: seq<EjbJarInfo>): seq<EnterpriseBeanInfo> {
    if jars == [] then [] else jars[0].enterpriseBeans + AllBeans(jars[1..])
  }

  /** Adding two runs of beans one after the other is adding their concatenation. */
  lemma {:induction false} AddBeansAppend(m: map<string, BeanContext>, a: seq<EnterpriseBeanInfo>,
                                          b: seq<EnterpriseBeanInfo>, live: map<string, BeanContext>)
    ensures AddBeans(AddBeans(m, a, live), b, live) == AddBeans(m, a + b, live)
    decreases |a|
  {
    if a != [] {
      var m1 := if IsLiveRestBean(a[0], live) then m[a[0].ejbClass := live[a[0].ejbDeploymentId]] else m;
      AddBeansAppend(m1, a[1..], b, live);
      assert (a + b)[1..] == a[1..] + b;
    } else {
      assert a + b == b;
    }
  }

  /** Adding jar by jar is adding every bean of every jar in order. */
  lemma {:induction false} AddJarsFlattens(m: map<string, BeanContext>, jars: seq<EjbJarInfo>,
                                           live: map<string, BeanContext>)
    ensures AddJars(m, jars, live) == AddBeans(m, AllBeans(jars), live)
    decreases |jars|
  {
    if jars != [] {
      AddJarsFlattens(AddBeans(m, jars[0].enterpriseBeans, live), jars[1..], live);
      AddBeansAppend(m, jars[0].enterpriseBeans, AllBeans(jars[1..]), live);
    }
  }

  /** Bean `b` puts a context under class `k`. */
  predicate Puts(b: EnterpriseBeanInfo, k: string, live: map<string, BeanContext>) {
    IsLiveRestBean(b, live) && b.ejbClass == k
  }

  /** The position of the last bean that puts a context under class `k`, if any. */
  function LastPut(beans: seq<EnterpriseBeanInfo>, k: string, live: map<string, BeanContext>): (r: Option<nat>)
    ensures r.Some? ==>
      r.value < |beans| && Puts(beans[r.value], k, live)
      && forall j | r.value < j < |beans| :: !Puts(beans[j], k, live)
    ensures r.None? ==> forall j | 0 <= j < |beans| :: !Puts(beans[j], k, live)
    decreases |beans|
  {
    if beans == [] then None
    else
      match LastPut(beans[1..], k, live)
      case Some(i) => Some(i + 1)
      case None => if Puts(beans[0], k, live) then Some(0) else None
  }

  /**
   * Putting beans into a map: a class ends up keyed exactly when it was keyed
   * before or some live REST bean has it, and its context is that of the LAST
   * live REST bean of that class, or the old one when there is none.
   */
  lemma {:induction false} AddBeansSpec(m: map<string, BeanContext>, beans: seq<EnterpriseBeanInfo>,
                                        live: map<string, BeanContext>)
    ensures var r := AddBeans(m, beans, live);
      && (forall k :: k in r <==> k in m || LastPut(beans, k, live).Some?)
      && (forall k | k in r ::
            r[k] == match LastPut(beans, k, live)
                    case Some(i) => live[beans[i].ejbDeploymentId]
                    case None => m[k])
    decreases |beans|
  {
    if beans != [] {
      var b := beans[0];
      var m1 := if IsLiveRestBean(b, live) then m[b.ejbClass := live[b.ejbDeploymentId]] else m;
      AddBeansSpec(m1, beans[1..], live);
      forall k
        ensures k in AddBeans(m, beans, live) <==> k in m || LastPut(beans, k, live).Some?
      {
        match LastPut(beans[1..], k, live)
        case Some(_) => {}
        case None => {}
      }
    }
  }

  /**
   * An application's REST bean contexts: keyed exactly by the classes of its
   * live REST beans, each holding the context of the last bean of that class
   * in declaration order.
   */
  lemma RestBeanContextsSpec(appInfo: AppInfo, live: map<string, BeanContext>)
    ensures var r := RestBeanContexts(appInfo, live); var beans := AllBeans(appInfo.ejbJars);
      && (forall k :: k in r <==> exists i :: 0 <= i < |beans| && Puts(beans[i], k, live))
      && (forall k | k in r ::
            exists i :: 0 <= i < |beans| && Puts(beans[i], k, live)
              && r[k] == live[beans[i].ejbDeploymentId]
              && forall j | i < j < |beans| :: !Puts(beans[j], k, live))
  {
    AddJarsFlattens(map[], appInfo.ejbJars, live);
    AddBeansSpec(map[], AllBeans(appInfo.ejbJars), live);
  }

  /** The `EJBRestServiceInfo` constructor, which refuses a missing bean context. */
  function NewEjbRestServiceInfo(path: Option<string>, context: Option<BeanContext>): (r: Result<EjbRestServiceInfo, RestError>)
    ensures r.Ok? <==> context.Some?
    ensures r.Ok? ==> r.value.path == path && r.value.context == context.value
    ensures r.Err? ==> r.error == MissingBeanContext
  {
    match context
    case None => Err(MissingBeanContext)
    case Some(c) => Ok(EjbRestServiceInfo(path, c))
  }

  /** `Map.get`: the value under `k`, or `None`. */
  function Get<K, V>(m: map<K, V>, k: K): (r: Option<V>)
    ensures r.Some? <==> k in m
    ensures r.Some? ==> r.value == m[k]
  {
    if k in m then Some(m[k]) else None
  }

  /** `m` after one web module, rooted at `root`, claims each of `ejbs` in turn. */
  function ClaimEjbs(m: map<string, EjbRestServiceInfo>, ejbs: seq<string>, root: string,
                     beans: map<string, BeanContext>): Result<map<string, EjbRestServiceInfo>, RestError>
    decreases |ejbs|
  {
    if ejbs == [] then Ok(m)
    else
      match NewEjbRestServiceInfo(Some(root), Get(beans, ejbs[0]))
      case Err(e) => Err(e)
      case Ok(info) => ClaimEjbs(m[ejbs[0] := info], ejbs[1..], root, beans)
  }

  /** `m` after every web module claims the REST EJBs it names, module by module. */
  function ClaimWebApps(m: map<string, EjbRestServiceInfo>, webApps: seq<WebAppInfo>,
                        beans: map<string, BeanContext>): Result<map<string, EjbRestServiceInfo>, RestError>
    decreases |webApps|
  {
    if webApps == [] then Ok(m)
    else
      match ClaimEjbs(m, webApps[0].ejbRestServices, webApps[0].contextRoot, beans)
      case Err(e) => Err(e)
      case Ok(m1) => ClaimWebApps(m1, webApps[1..], beans)
  }

  /**
   * The REST EJBs of an application: the claims of its web modules, and every
   * unclaimed REST bean with no context root.
   */
  function RestEjbs(webApps: seq<WebAppInfo>, beans: map<string, BeanContext>)
    : Result<map<string, EjbRestServiceInfo>, RestError>
  {
    match ClaimWebApps(map[], webApps, beans)
    case Err(e) => Err(e)
    case Ok(claimed) =>
      Ok(map k | k in beans.Keys + claimed.Keys ::
           if k in claimed then claimed[k] else EjbRestServiceInfo(None, beans[k]))
  }

  /** Some web module names `k` among its REST EJBs. */
  ghost predicate Named(webApps: seq<WebAppInfo>, k: string) {
    exists i :: 0 <= i < |webApps| && k in webApps[i].ejbRestServices
  }

  /** The position of the last web module that names `k`, if any. */
  function LastNaming(webApps: seq<WebAppInfo>, k: string): (r: Option<nat>)
    ensures r.Some? ==>
      r.value < |webApps| && k in webApps[r.value].ejbRestServices
      && forall j | r.value < j < |webApps| :: k !in webApps[j].ejbRestServices
    ensures r.None? ==> forall j | 0 <= j < |webApps| :: k !in webApps[j].ejbRestServices
    decreases |webApps|
  {
    if webApps == [] then None
    else
      match LastNaming(webApps[1..], k)
      case Some(i) => Some(i + 1)
      case None => if k in webApps[0].ejbRestServices then Some(0) else None
  }

  /**
   * The context root `k` is published under: that of the last web module that
   * names it, or `None` when no module does.
   */
  function ClaimingRoot(webApps: seq<WebAppInfo>, k: string): (r: Option<string>)
    ensures r.Some? <==> Named(webApps, k)
    ensures r.Some? ==> exists i :: 0 <= i < |webApps| && k in webApps[i].ejbRestServices
                          && r.value == webApps[i].contextRoot
                          && forall j | i < j < |webApps| :: k !in webApps[j].ejbRestServices
  {
    match LastNaming(webApps, k)
    case Some(i) => Some(webApps[i].contextRoot)
    case None => None
  }

  /**
   * One module's claims: they fail exactly when it names a class with no REST
   * bean context; otherwise each named class is (re)bound to its context under
   * the module's root, and every other entry is left as it was.
   */
  lemma {:induction false} ClaimEjbsSpec(m: map<string, EjbRestServiceInfo>, ejbs: seq<string>, root: string,
                                         beans: map<string, BeanContext>)
    ensures var r := ClaimEjbs(m, ejbs, root, beans);
      && (r.Ok? <==> forall e | e in ejbs :: e in beans)
      && (r.Err? ==> r.error == MissingBeanContext)
      && (r.Ok? ==> r.value.Keys == m.Keys + set e | e in ejbs)
      && (r.Ok? ==> forall k | k in r.value ::
            r.value[k] == if k in ejbs then EjbRestServiceInfo(Some(root), beans[k]) else m[k])
    decreases |ejbs|
  {
    if ejbs != [] {
      var rest := ejbs[1..];
      assert forall e :: e in ejbs <==> e == ejbs[0] || e in rest;
      if ejbs[0] in beans {
        ClaimEjbsSpec(m[ejbs[0] := EjbRestServiceInfo(Some(root), beans[ejbs[0]])], rest, root, beans);
      }
    }
  }

  /**
   * All modules' claims: they fail exactly when some module names a class with
   * no REST bean context; otherwise a class named by some module is bound to its
   * context under the root of the last module naming it, and every other
   * entry is left as it was.
   */
  lemma {:induction false} ClaimWebAppsSpec(m: map<string, EjbRestServiceInfo>, webApps: seq<WebAppInfo>,
                                            beans: map<string, BeanContext>)
    ensures var r := ClaimWebApps(m, webApps, beans);
      && (r.Ok? <==> forall i, e | 0 <= i < |webApps| && e in webApps[i].ejbRestServices :: e in beans)
      && (r.Err? ==> r.error == MissingBeanContext)
      && (r.Ok? ==> forall k :: k in r.value <==> k in m || LastNaming(webApps, k).Some?)
      && (r.Ok? ==> forall k | k in r.value ::
            r.value[k] == match LastNaming(webApps, k)
                          case Some(i) => EjbRestServiceInfo(Some(webApps[i].contextRoot), beans[k])
                          case None => m[k])
    decreases |webApps|
  {
    if webApps != [] {
      var w := webApps[0];
      var rest := webApps[1..];
      ClaimEjbsSpec(m, w.ejbRestServices, w.contextRoot, beans);
      var first := ClaimEjbs(m, w.ejbRestServices, w.contextRoot, beans);
      if first.Ok? {
        ClaimWebAppsSpec(first.value, rest, beans);
        assert forall i | 0 <= i < |rest| :: rest[i] == webApps[i + 1];
      } else {
        assert !(forall e | e in webApps[0].ejbRestServices :: e in beans);
      }
    }
  }

  /**
   * The partition of REST EJBs: it fails exactly when some web module names a
   * class with no live REST bean; otherwise it covers exactly the live REST
   * bean classes, each with its own bean context, published under the root of
   * the last module naming it, or with no root when no module names it.
   */
  lemma RestEjbsPartition(webApps: seq<WebAppInfo>, beans: map<string, BeanContext>)
    ensures var r := RestEjbs(webApps, beans);
      && (r.Err? <==> exists i, e :: 0 <= i < |webApps| && e in webApps[i].ejbRestServices && e !in beans)
      && (r.Err? ==> r.error == MissingBeanContext)
      && (r.Ok? ==> r.value.Keys == beans.Keys)
      && (r.Ok? ==> forall k | k in r.value ::
            r.value[k].context == beans[k] && r.value[k].path == ClaimingRoot(webApps, k))
  {
    ClaimWebAppsSpec(map[], webApps, beans);
  }

  /** `afterApplicationCreated`'s first loop: collects the REST bean contexts jar by jar, bean by bean. */
  method CollectBeanContexts(appInfo: AppInfo, live: map<string, BeanContext>)
    returns (beanContexts: map<string, BeanContext>)
    ensures beanContexts == RestBeanContexts(appInfo, live)
  {
    var jars := appInfo.ejbJars;
    beanContexts := map[];
    var i := 0;
    while i < |jars|
      invariant 0 <= i <= |jars|
      invariant RestBeanContexts(appInfo, live) == AddJars(beanContexts, jars[i..], live)
    {
      var beans := jars[i].enterpriseBeans;
      assert jars[i..][1..] == jars[i + 1..];
      var j := 0;
      while j < |beans|
        invariant 0 <= j <= |beans|
        invariant RestBeanContexts(appInfo, live) == AddJars(AddBeans(beanContexts, beans[j..], live), jars[i + 1..], live)
      {
        var bean := beans[j];
        assert beans[j..][1..] == beans[j + 1..];
        if bean.restService {
          var beanContext := Get(live, bean.ejbDeploymentId);
          if beanContext.Some? {
            beanContexts := beanContexts[bean.ejbClass := beanContext.value];
          }
        }
        j := j + 1;
      }
      assert beans[j..] == [];
      i := i + 1;
    }
    assert jars[i..] == [];
  }

  /**
   * `afterApplicationCreated`'s second and third loops: the web modules' claims,
   * then every unclaimed bean with no context root, whatever order the bean map
   * is iterated in.
   */
  method CollectRestEjbs(webApps: seq<WebAppInfo>, beanContexts: map<string, BeanContext>)
    returns (r: Result<map<string, EjbRestServiceInfo>, RestError>)
    ensures r == RestEjbs(webApps, beanContexts)
  {
    var restEjbs: map<string, EjbRestServiceInfo> := map[];
    var i := 0;
    while i < |webApps|
      invariant 0 <= i <= |webApps|
      invariant ClaimWebApps(map[], webApps, beanContexts) == ClaimWebApps(restEjbs, webApps[i..], beanContexts)
    {
      var webApp := webApps[i];
      assert webApps[i..][1..] == webApps[i + 1..];
      var ejbs := webApp.ejbRestServices;
      var j := 0;
      while j < |ejbs|
        invariant 0 <= j <= |ejbs|
        invariant ClaimWebApps(map[], webApps, beanContexts) ==
          match ClaimEjbs(restEjbs, ejbs[j..], webApp.contextRoot, beanContexts)
          case Err(e) => Err(e)
          case Ok(m1) => ClaimWebApps(m1, webApps[i + 1..], beanContexts)
      {
        assert ejbs[j..][1..] == ejbs[j + 1..];
        var info := NewEjbRestServiceInfo(Some(webApp.contextRoot), Get(beanContexts, ejbs[j]));
        if info.Err? {
          return Err(info.error);
        }
        restEjbs := restEjbs[ejbs[j] := info.value];
        j := j + 1;
      }
      assert ejbs[j..] == [];
      i := i + 1;
    }
    assert webApps[i..] == [];
    ghost var claimed := restEjbs;
    var remaining := beanContexts.Keys;
    while remaining != {}
      invariant remaining <= beanContexts.Keys
      invariant restEjbs == map k | k in (beanContexts.Keys - remaining) + claimed.Keys ::
                  if k in claimed then claimed[k] else EjbRestServiceInfo(None, beanContexts[k])
      decreases remaining
    {
      var clazz :| clazz in remaining;
      if clazz !in restEjbs {
        restEjbs := restEjbs[clazz := EjbRestServiceInfo(None, beanContexts[clazz])];
      }
      remaining := remaining - {clazz};
    }
    assert ClaimWebApps(map[], webApps, beanContexts) == Ok(claimed);
    assert beanContexts.Keys - remaining == beanContexts.Keys;
    return Ok(restEjbs);
  }
}
