/**
 * The deployment descriptors the container hands to the REST service, the
 * pieces of the container the service queries, and what the service hands on
 * to the listener registry and the listeners.
 */
module Info {
  import opened Wrappers

  /** A loaded class: its name (`Class.getName()`) and its JAX-RS `@Path` value, if it has one. */
  datatype ResourceClass = ResourceClass(name: string, path: Option<string>)

  /** An object returned by `Application.getSingletons()`; `id` stands for its identity. */
  datatype Instance = Instance(id: nat, cls: ResourceClass)

  /**
   * A JAX-RS `Application` subclass once loaded and instantiated: its
   * `@ApplicationPath` value, the objects `getSingletons()` returns (a `null`
   * entry is `None`) and the classes `getClasses()` returns, in iteration order.
   */
  datatype ApplicationClass = ApplicationClass(
    path: Option<string>,
    singletons: seq<Option<Instance>>,
    classes: seq<ResourceClass>)

  /**
   * What a web module's class loader resolves: the classes `loadClass` finds,
   * and the `Application` subclasses that both load and instantiate.
   */
  datatype WebContext = WebContext(
    classes: map<string, ResourceClass>,
    applications: map<string, ApplicationClass>)

  /** A live EJB as the container describes it: its deployment id and bean class. */
  datatype BeanContext = BeanContext(deploymentId: string, beanClass: ResourceClass)

  /** The container lookups the service performs: web contexts by module id, bean contexts by deployment id. */
  datatype Container = Container(
    webContexts: map<string, WebContext>,
    beanContexts: map<string, BeanContext>)

  datatype WebAppInfo = WebAppInfo(
    moduleId: string,
    contextRoot: string,
    restClass: seq<string>,
    restApplications: seq<string>,
    ejbRestServices: seq<string>)

  datatype EnterpriseBeanInfo = EnterpriseBeanInfo(ejbDeploymentId: string, ejbClass: string, restService: bool)

  datatype EjbJarInfo = EjbJarInfo(enterpriseBeans: seq<EnterpriseBeanInfo>)

  datatype AppInfo = AppInfo(
    appId: string,
    ejbJars: seq<EjbJarInfo>,
    webApps: seq<WebAppInfo>,
    standaloneModule: bool)

  /** A REST EJB and the context it is published under; `None` for a bean no web module claims. */
  datatype EjbRestServiceInfo = EjbRestServiceInfo(path: Option<string>, context: BeanContext)

  /**
   * What a listener is asked to publish: a class it instantiates per request
   * (with the `Application` it came from, if any), a singleton object of an
   * `Application`, or an EJB.
   */
  datatype Target =
    | Pojo(cls: ResourceClass, app: Option<string>)
    | Singleton(instance: Instance, application: string)
    | Ejb(bean: BeanContext)

  /** The class whose `@Path` the endpoint address is built from. */
  function TargetClass(t: Target): ResourceClass {
    match t
    case Pojo(cls, _) => cls
    case Singleton(o, _) => o.cls
    case Ejb(bean) => bean.beanClass
  }

  /** One call of deployPojo, deploySingleton or deployEJB: the context root it is given and what it publishes. */
  datatype Deployment = Deployment(context: Option<string>, target: Target)

  /** The calls the service makes on the listener registry and on the listeners, in order. */
  datatype Event =
    | Bind(pattern: string, address: string)      // a listener created under `pattern`; `address` is the one selected
    | Publish(fullContext: string, target: Target) // the new listener asked to serve `target`
    | Unbind(address: string)                     // the listener at `address` removed and undeployed

  /** The exceptions the service raises. */
  datatype RestError =
    | ClassNotFound(name: string)                         // a scanned class that does not load
    | ApplicationNotCreated(name: string)                 // an Application subclass that does not load or instantiate
    | MissingBeanContext                                  // a web module names a REST EJB that has no live context
    | ContextNotInAddress(address: string, context: string) // the selected address does not contain the context root
}
