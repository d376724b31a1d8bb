/** The Lab page's apps: `installAppHandler`, `uninstallAppHandler` and `getAppHandler` of
    backend/proxy_server/resource_handler.go and `updateConfigList` of Lab.jsx, over one namespace
    of a cluster whose API may refuse any call. */
module LabApps {
  import opened Options

  type Labels = map<string, string>

  datatype Deployment = Deployment(name: string, labels: Labels, image: string, replicas: Option<int>)
  datatype Service = Service(name: string, labels: Labels, port: int, targetPort: int)

  // The namespace: its deployments and services by name.
  datatype Store = Store(deployments: map<string, Deployment>, services: map<string, Service>)

  const MYSQL := "wordpress-mysql"

  function LowerChar(c: char): char {
    if 'A' <= c <= 'Z' then ((c as int) - ('A' as int) + ('a' as int)) as char else c
  }

  // getAppServiceName, for ASCII names.
  function ServiceName(app: string): string {
    seq(|app|, i requires 0 <= i < |app| => LowerChar(app[i])) + "-service"
  }

  // Go's conversion of an int to int32.
  function Int32(x: int): int { (x + 0x8000_0000) % 0x1_0000_0000 - 0x8000_0000 }

  function LabLabels(app: string): Labels { map["app" := app, "type" := "lab"] }

  function MysqlDeployment(): Deployment { Deployment(MYSQL, LabLabels(MYSQL), "mysql:5.7", None) }

  function ServiceConfig(app: string, port: int, targetPort: int): Service {
    Service(ServiceName(app), LabLabels(app), Int32(port), Int32(targetPort))
  }

  datatype InstallRequest = InstallRequest(deploymentName: string, app: string, service: bool, replicas: int, port: int)
  datatype UninstallRequest = UninstallRequest(deploymentName: string, app: string, service: bool)

  // Which API calls the cluster lets through: the two MySQL calls, the two calls for the app itself, and
  // the compensating delete.
  datatype Env = Env(mysqlDeployment: bool, mysqlService: bool, deployment: bool, service: bool, undo: bool)

  const AllYes := Env(true, true, true, true, true)

  // The main deployment of an app; None for an app without one.
  function AppDeployment(req: InstallRequest): Option<Deployment> {
    match req.app
    case "RSSHub" => Some(Deployment(req.deploymentName, LabLabels(req.app), "diygod/rsshub", Some(Int32(req.replicas))))
    case "WordPress" => Some(Deployment(req.deploymentName, LabLabels(req.app), "wordpress", Some(Int32(req.replicas))))
    case _ => None
  }

  function TargetPort(app: string): int {
    match app
    case "RSSHub" => 1200
    case "WordPress" => 80
    case _ => 0
  }

  // ---------- The handlers ----------

  // A call that is refused, or names an object that exists (create) or does not (delete), changes nothing.
  class Cluster {
    var deployments: map<string, Deployment>
    var services: map<string, Service>

    constructor (s: Store)
      ensures Contents() == s
    {
      deployments, services := s.deployments, s.services;
    }

    function Contents(): Store
      reads this
    {
      Store(deployments, services)
    }

    method CreateDeployment(d: Option<Deployment>, accept: bool) returns (ok: bool)
      modifies this
      ensures ok <==> accept && d.Some? && d.value.name !in old(deployments)
      ensures deployments == if ok then old(deployments)[d.value.name := d.value] else old(deployments)
      ensures services == old(services)
    {
      ok := accept && d.Some? && d.value.name !in deployments;
      if ok { deployments := deployments[d.value.name := d.value]; }
    }

    method CreateService(svc: Service, accept: bool) returns (ok: bool)
      modifies this
      ensures ok <==> accept && svc.name !in old(services)
      ensures services == if ok then old(services)[svc.name := svc] else old(services)
      ensures deployments == old(deployments)
    {
      ok := accept && svc.name !in services;
      if ok { services := services[svc.name := svc]; }
    }

    method DeleteDeployment(name: string, accept: bool) returns (ok: bool)
      modifies this
      ensures ok <==> accept && name in old(deployments)
      ensures deployments == if ok then old(deployments) - {name} else old(deployments)
      ensures services == old(services)
    {
      ok := accept && name in deployments;
      if ok { deployments := deployments - {name}; }
    }

    method DeleteService(name: string, accept: bool) returns (ok: bool)
      modifies this
      ensures ok <==> accept && name in old(services)
      ensures services == if ok then old(services) - {name} else old(services)
      ensures deployments == old(deployments)
    {
      ok := accept && name in services;
      if ok { services := services - {name}; }
    }

    method InstallApp(req: InstallRequest, env: Env) returns (ok: bool)
      modifies this
      ensures Contents() == Install(old(Contents()), req, env).0
      ensures ok == Install(old(Contents()), req, env).1
      ensures Creates(old(Contents()), Contents(), ok, req, env)
      ensures KeepsEverything(old(Contents()), Contents())
      ensures !ok ==> NothingLeftBut(old(Contents()), Contents(), Leftovers(req, env), MysqlLeftover(req))
    {
      InstallCreates(Contents(), req, env);
      InstallKeepsEverything(Contents(), req, env);
      InstallErrorLeavesNothing(Contents(), req, env);
      var deployment, targetPort := AppDeployment(req), TargetPort(req.app);
      if req.app == "WordPress" {
        var _ := CreateDeployment(Some(MysqlDeployment()), env.mysqlDeployment);
        var _ := CreateService(ServiceConfig(MYSQL, 3306, 3306), env.mysqlService);
      } else if req.app != "RSSHub" && req.app != "EdgeXFoundry" {
        return false;
      }
      ok := CreateDeployment(deployment, env.deployment);
      if !ok { return false; }
      if req.service {
        ok := CreateService(ServiceConfig(req.app, req.port, targetPort), env.service);
        if !ok {
          var _ := DeleteDeployment(req.deploymentName, env.undo);
          return false;
        }
      }
      return true;
    }

    method UninstallApp(req: UninstallRequest, env: Env) returns (ok: bool)
      modifies this
      ensures Contents() == Uninstall(old(Contents()), req, env).0
      ensures ok == Uninstall(old(Contents()), req, env).1
    {
      if req.app == "WordPress" {
        var _ := DeleteDeployment(MYSQL, env.mysqlDeployment);
        var _ := DeleteService(ServiceName(MYSQL), env.mysqlService);
      }
      ok := DeleteDeployment(req.deploymentName, env.deployment);
      if !ok { return false; }
      if req.service {
        ok := DeleteService(ServiceName(req.app), env.service);
        if !ok { return false; }
      }
      return true;
    }
  }

  // ---------- The handlers as functions of the store ----------

  function AddDeployment(s: Store, d: Deployment, accept: bool): Store {
    if accept && d.name !in s.deployments then s.(deployments := s.deployments[d.name := d]) else s
  }

  function AddService(s: Store, svc: Service, accept: bool): Store {
    if accept && svc.name !in s.services then s.(services := s.services[svc.name := svc]) else s
  }

  function DropDeployment(s: Store, name: string, accept: bool): Store {
    if accept && name in s.deployments then s.(deployments := s.deployments - {name}) else s
  }

  function DropService(s: Store, name: string, accept: bool): Store {
    if accept && name in s.services then s.(services := s.services - {name}) else s
  }

  // The store once the MySQL helper objects have been asked for.
  function Prepared(s: Store, req: InstallRequest, env: Env): Store {
    if req.app == "WordPress"
    then AddService(AddDeployment(s, MysqlDeployment(), env.mysqlDeployment), ServiceConfig(MYSQL, 3306, 3306), env.mysqlService)
    else s
  }

  function Install(s: Store, req: InstallRequest, env: Env): (Store, bool) {
    var s1, d := Prepared(s, req, env), AppDeployment(req);
    var svc := ServiceConfig(req.app, req.port, TargetPort(req.app));
    if d.None? || !env.deployment || req.deploymentName in s1.deployments then (s1, false)
    else
      var s2 := AddDeployment(s1, d.value, true);
      if !req.service then (s2, true)
      else if env.service && svc.name !in s2.services then (AddService(s2, svc, true), true)
      else (DropDeployment(s2, req.deploymentName, env.undo), false)
  }

  // The store once the MySQL helper objects have been asked to go.
  function WithoutMysql(s: Store, req: UninstallRequest, env: Env): Store {
    if req.app == "WordPress"
    then DropService(DropDeployment(s, MYSQL, env.mysqlDeployment), ServiceName(MYSQL), env.mysqlService)
    else s
  }

  function Uninstall(s: Store, req: UninstallRequest, env: Env): (Store, bool) {
    var s1 := WithoutMysql(s, req, env);
    if !env.deployment || req.deploymentName !in s1.deployments then (s1, false)
    else
      var s2 := DropDeployment(s1, req.deploymentName, true);
      if !req.service then (s2, true)
      else (DropService(s2, ServiceName(req.app), env.service), env.service && ServiceName(req.app) in s2.services)
  }

  // ---------- What an installation leaves behind ----------

  // Every object of `s` is in `t`, unaltered.
  ghost predicate KeepsEverything(s: Store, t: Store) {
    && (forall n <- s.deployments :: n in t.deployments && t.deployments[n] == s.deployments[n])
    && (forall n <- s.services :: n in t.services && t.services[n] == s.services[n])
  }

  lemma InstallKeepsEverything(s: Store, req: InstallRequest, env: Env)
    ensures KeepsEverything(s, Install(s, req, env).0)
  {
  }

  // The deployments a failed installation may leave: the helper, and the main deployment if the
  // compensating delete itself was refused.
  function Leftovers(req: InstallRequest, env: Env): set<string> {
    (if req.app == "WordPress" then {MYSQL} else {}) + (if env.undo then {} else {req.deploymentName})
  }

  function MysqlLeftover(req: InstallRequest): set<string> {
    if req.app == "WordPress" then {ServiceName(MYSQL)} else {}
  }

  ghost predicate NothingLeftBut(s: Store, t: Store, deployments: set<string>, services: set<string>) {
    && t.deployments.Keys - s.deployments.Keys <= deployments
    && t.services.Keys - s.services.Keys <= services
  }

  // After an error reply the store is the initial one, up to those objects; if the delete was not
  // refused, only the MySQL helper objects can be left.
  lemma InstallErrorLeavesNothing(s: Store, req: InstallRequest, env: Env)
    ensures
      !Install(s, req, env).1 ==>
        NothingLeftBut(s, Install(s, req, env).0, Leftovers(req, env), MysqlLeftover(req))
    ensures
      !Install(s, req, env).1 && req.app != "WordPress" && env.undo ==> Install(s, req, env).0 == s
  {
    var t := Install(s, req, env).0;
    if !Install(s, req, env).1 && req.app != "WordPress" && env.undo {
      assert t.deployments == s.deployments;
    }
  }

  // Exactly when an error reply leaves the main deployment behind: it was created, the service was
  // refused or its name taken, and the delete was refused.
  lemma MainDeploymentLeftIff(s: Store, req: InstallRequest, env: Env)
    requires !Install(s, req, env).1
    requires req.deploymentName !in Prepared(s, req, env).deployments
    ensures
      req.deploymentName in Install(s, req, env).0.deployments <==>
      && AppDeployment(req).Some? && env.deployment && req.service
      && (!env.service || ServiceName(req.app) in Prepared(s, req, env).services)
      && !env.undo
  {
  }

  // ---------- What an installation creates ----------

  // `x` is the 32-bit two's-complement reading of `n`.
  ghost predicate IsInt32Of(x: int, n: int) {
    -0x8000_0000 <= x < 0x8000_0000 && (x - n) % 0x1_0000_0000 == 0
  }

  ghost predicate IsLabObjectOf(labels: Labels, app: string) {
    labels == map["app" := app, "type" := "lab"]
  }

  // The app's deployment: the requested name, the app's labels and image, the requested replicas.
  ghost predicate IsAppDeployment(d: Deployment, req: InstallRequest) {
    && d.name == req.deploymentName && IsLabObjectOf(d.labels, req.app)
    && d.image == (if req.app == "RSSHub" then "diygod/rsshub" else "wordpress")
    && d.replicas.Some? && IsInt32Of(d.replicas.value, req.replicas)
  }

  // The app's service: named after the app, on the requested port, for the port the app listens on.
  ghost predicate IsAppService(v: Service, req: InstallRequest) {
    && v.name == (if req.app == "RSSHub" then "rsshub-service" else "wordpress-service")
    && IsLabObjectOf(v.labels, req.app)
    && IsInt32Of(v.port, req.port)
    && v.targetPort == (if req.app == "RSSHub" then 1200 else 80)
  }

  const SqlDeployment := Deployment("wordpress-mysql", map["app" := "wordpress-mysql", "type" := "lab"], "mysql:5.7", None)
  const SqlService := Service("wordpress-mysql-service", map["app" := "wordpress-mysql", "type" := "lab"], 3306, 3306)

  function ServiceKey(req: InstallRequest): string {
    if req.app == "RSSHub" then "rsshub-service" else "wordpress-service"
  }

  // When an installation succeeds, from the request, the store and the cluster's answers alone.
  ghost predicate Succeeds(s: Store, req: InstallRequest, env: Env) {
    && (req.app == "RSSHub" || req.app == "WordPress")
    && env.deployment && req.deploymentName !in s.deployments
    && !(req.app == "WordPress" && req.deploymentName == "wordpress-mysql" && env.mysqlDeployment)
    && (req.service ==> env.service && ServiceKey(req) !in s.services)
  }

  // Field by field: on success the app's deployment and, if asked for, its service are there. For
  // WordPress, whatever the reply, the two MySQL objects are there if they were or were let through.
  ghost predicate Creates(s: Store, t: Store, ok: bool, req: InstallRequest, env: Env) {
    && (ok <==> Succeeds(s, req, env))
    && (ok ==> req.deploymentName in t.deployments && IsAppDeployment(t.deployments[req.deploymentName], req))
    && (ok && req.service ==> ServiceKey(req) in t.services && IsAppService(t.services[ServiceKey(req)], req))
    && (req.app == "WordPress" && req.deploymentName != "wordpress-mysql" ==>
          && ("wordpress-mysql" in t.deployments <==> "wordpress-mysql" in s.deployments || env.mysqlDeployment)
          && ("wordpress-mysql" in t.deployments && "wordpress-mysql" !in s.deployments ==>
                t.deployments["wordpress-mysql"] == SqlDeployment))
    && (req.app == "WordPress" ==>
          && ("wordpress-mysql-service" in t.services <==> "wordpress-mysql-service" in s.services || env.mysqlService)
          && ("wordpress-mysql-service" in t.services && "wordpress-mysql-service" !in s.services ==>
                t.services["wordpress-mysql-service"] == SqlService))
  }

  lemma Int32Meaning(n: int)
    ensures IsInt32Of(Int32(n), n)
  {
  }

  lemma InstallCreates(s: Store, req: InstallRequest, env: Env)
    ensures Creates(s, Install(s, req, env).0, Install(s, req, env).1, req, env)
  {
    ServiceNamesDiffer();
    Int32Meaning(req.port);
    Int32Meaning(req.replicas);
    PreparedMeaning(s, req, env);
  }

  // The two MySQL objects, asked for in advance.
  lemma PreparedMeaning(s: Store, req: InstallRequest, env: Env)
    ensures
      var p := Prepared(s, req, env);
      if req.app != "WordPress" then p == s
      else
        && p.deployments == (if env.mysqlDeployment && "wordpress-mysql" !in s.deployments
                             then s.deployments["wordpress-mysql" := SqlDeployment] else s.deployments)
        && p.services == (if env.mysqlService && "wordpress-mysql-service" !in s.services
                          then s.services["wordpress-mysql-service" := SqlService] else s.services)
  {
    ServiceNamesDiffer();
  }

  // The objects an uninstallation may delete.
  function OwnDeployments(req: UninstallRequest): set<string> {
    {req.deploymentName} + (if req.app == "WordPress" then {MYSQL} else {})
  }

  function OwnServices(req: UninstallRequest): set<string> {
    (if req.service then {ServiceName(req.app)} else {}) + (if req.app == "WordPress" then {ServiceName(MYSQL)} else {})
  }

  // Uninstalling adds and alters nothing and deletes only the app's own objects. Success means that the
  // deployment, and the service if there is one, are gone; an error that one of them is missing or could
  // not be deleted.
  lemma UninstallOnlyDeletesOwn(s: Store, req: UninstallRequest, env: Env)
    ensures
      var (t, ok) := Uninstall(s, req, env);
      && KeepsEverything(t, s)
      && s.deployments.Keys - t.deployments.Keys <= OwnDeployments(req)
      && s.services.Keys - t.services.Keys <= OwnServices(req)
      && (ok ==> req.deploymentName !in t.deployments && (req.service ==> ServiceName(req.app) !in t.services))
      && (ok <==>
            && env.deployment && req.deploymentName in s.deployments
            && !(req.app == "WordPress" && req.deploymentName == MYSQL && env.mysqlDeployment)
            && (req.service ==> env.service && ServiceName(req.app) in s.services))
  {
    ServiceNamesDiffer();
  }

  function Given(condition: bool, name: string): set<string> {
    if condition then {name} else {}
  }

  lemma MysqlDeleted(s: Store, req: UninstallRequest, env: Env)
    ensures
      var t, mysql := WithoutMysql(s, req, env), req.app == "WordPress";
      && KeepsEverything(t, s)
      && t.deployments.Keys == s.deployments.Keys - Given(mysql && env.mysqlDeployment, "wordpress-mysql")
      && t.services.Keys == s.services.Keys - Given(mysql && env.mysqlService, "wordpress-mysql-service")
  {
    ServiceNamesDiffer();
  }

  // Exactly what is deleted, for every pattern of refusals: first the MySQL objects, then the deployment,
  // and the service only once the deployment is gone.
  lemma UninstallDeletes(s: Store, req: UninstallRequest, env: Env)
    ensures
      var m, t := WithoutMysql(s, req, env), Uninstall(s, req, env).0;
      var gone := env.deployment && req.deploymentName in m.deployments;
      && KeepsEverything(t, s)
      && m.deployments.Keys == s.deployments.Keys - Given(req.app == "WordPress" && env.mysqlDeployment, "wordpress-mysql")
      && m.services.Keys == s.services.Keys - Given(req.app == "WordPress" && env.mysqlService, "wordpress-mysql-service")
      && t.deployments.Keys == m.deployments.Keys - Given(gone, req.deploymentName)
      && t.services.Keys == m.services.Keys - Given(gone && req.service && env.service, ServiceName(req.app))
  {
    MysqlDeleted(s, req, env);
  }

  // ---------- The app list ----------

  const APPS := ["RSSHub", "WordPress", "EdgeXFoundry"]

  predicate IsLabObject(labels: Labels, app: string) {
    "app" in labels && labels["app"] == app && "type" in labels && labels["type"] == "lab"
  }

  function FirstDeployment(items: seq<Deployment>, app: string): (d: Option<Deployment>)
    ensures d.None? <==> forall x <- items :: !IsLabObject(x.labels, app)
    ensures d.Some? ==> d.value in items && IsLabObject(d.value.labels, app)
  {
    if items == [] then None
    else if IsLabObject(items[0].labels, app) then Some(items[0])
    else FirstDeployment(items[1..], app)
  }

  function FirstService(items: seq<Service>, app: string): (svc: Option<Service>)
    ensures svc.None? <==> forall x <- items :: !IsLabObject(x.labels, app)
    ensures svc.Some? ==> svc.value in items && IsLabObject(svc.value.labels, app)
  {
    if items == [] then None
    else if IsLabObject(items[0].labels, app) then Some(items[0])
    else FirstService(items[1..], app)
  }

  // The reported deployment is the first one in the list with the app's two labels.
  lemma {:induction false} FirstDeploymentIff(items: seq<Deployment>, app: string, d: Deployment)
    ensures FirstDeployment(items, app) == Some(d) <==>
            exists j: nat | j < |items| ::
              && items[j] == d && Labelled(items[j].labels, app)
              && forall k | 0 <= k < j :: !Labelled(items[k].labels, app)
  {
    if items != [] && !IsLabObject(items[0].labels, app) {
      FirstDeploymentIff(items[1..], app, d);
      assert forall k | 0 < k < |items| :: items[k] == items[1..][k - 1];
      assert forall k | 0 <= k < |items[1..]| :: items[1..][k] == items[k + 1];
      if FirstDeployment(items[1..], app) == Some(d) {
        var j: nat :| j < |items[1..]| && items[1..][j] == d && Labelled(items[1..][j].labels, app)
                      && forall k | 0 <= k < j :: !Labelled(items[1..][k].labels, app);
        assert items[j + 1] == d;
      }
    }
  }

  ghost predicate Labelled(labels: Labels, app: string) {
    ("app", app) in labels.Items && ("type", "lab") in labels.Items
  }

  // The loop variable of one `range` statement: a single variable, assigned on every iteration.
  class DeploymentVar {
    var dp: Deployment
    constructor (dp: Deployment) ensures this.dp == dp { this.dp := dp; }
  }

  class ServiceVar {
    var svc: Service
    constructor (svc: Service) ensures this.svc == svc { this.svc := svc; }
  }

  // One element of the reply; the two pointers point to loop variables.
  class AppReport {
    const app: string
    var deployment: DeploymentVar?
    var service: ServiceVar?

    constructor (app: string)
      ensures this.app == app && deployment == null && service == null
    {
      this.app, deployment, service := app, null, null;
    }

    ghost predicate Shows(dps: seq<Deployment>, svcs: seq<Service>)
      reads this, deployment, service
    {
      && (deployment == null <==> FirstDeployment(dps, app).None?)
      && (deployment != null ==> FirstDeployment(dps, app) == Some(deployment.dp))
      && (service == null <==> FirstService(svcs, app).None?)
      && (service != null ==> FirstService(svcs, app) == Some(service.svc))
    }
  }

  lemma {:induction false} FirstDeploymentAfter(items: seq<Deployment>, app: string, j: nat)
    requires j < |items| && (forall k | 0 <= k < j :: !IsLabObject(items[k].labels, app))
    requires IsLabObject(items[j].labels, app)
    ensures FirstDeployment(items, app) == Some(items[j])
  {
    if j > 0 { FirstDeploymentAfter(items[1..], app, j - 1); }
  }

  lemma {:induction false} FirstServiceAfter(items: seq<Service>, app: string, j: nat)
    requires j < |items| && (forall k | 0 <= k < j :: !IsLabObject(items[k].labels, app))
    requires IsLabObject(items[j].labels, app)
    ensures FirstService(items, app) == Some(items[j])
  {
    if j > 0 { FirstServiceAfter(items[1..], app, j - 1); }
  }

  // One round of the outer loop. A pointer is taken to the loop variable and the loop is left at once,
  // so the variable keeps the first match.
  method FillReport(r: AppReport, dps: seq<Deployment>, svcs: seq<Service>)
    requires r.deployment == null && r.service == null
    modifies r
    ensures r.Shows(dps, svcs)
    ensures (r.deployment != null ==> fresh(r.deployment)) && (r.service != null ==> fresh(r.service))
  {
    r.deployment := PointToFirstDeployment(dps, r.app);
    r.service := PointToFirstService(svcs, r.app);
  }

  method PointToFirstDeployment(dps: seq<Deployment>, app: string) returns (p: DeploymentVar?)
    ensures p == null <==> FirstDeployment(dps, app).None?
    ensures p != null ==> fresh(p) && FirstDeployment(dps, app) == Some(p.dp)
  {
    p := null;
    var dpVar := new DeploymentVar(Deployment("", map[], "", None));
    for j := 0 to |dps|
      invariant p == null && fresh(dpVar)
      invariant forall k | 0 <= k < j :: !IsLabObject(dps[k].labels, app)
    {
      dpVar.dp := dps[j];
      if IsLabObject(dpVar.dp.labels, app) {
        p := dpVar;
        FirstDeploymentAfter(dps, app, j);
        break;
      }
    }
  }

  method PointToFirstService(svcs: seq<Service>, app: string) returns (p: ServiceVar?)
    ensures p == null <==> FirstService(svcs, app).None?
    ensures p != null ==> fresh(p) && FirstService(svcs, app) == Some(p.svc)
  {
    p := null;
    var svcVar := new ServiceVar(Service("", map[], 0, 0));
    for j := 0 to |svcs|
      invariant p == null && fresh(svcVar)
      invariant forall k | 0 <= k < j :: !IsLabObject(svcs[k].labels, app)
    {
      svcVar.svc := svcs[j];
      if IsLabObject(svcVar.svc.labels, app) {
        p := svcVar;
        FirstServiceAfter(svcs, app, j);
        break;
      }
    }
  }

  // After all loops every report still shows the first matching deployment and service.
  method GetApps(dps: seq<Deployment>, svcs: seq<Service>) returns (apps: seq<AppReport>)
    ensures |apps| == |APPS| && forall i | 0 <= i < |APPS| :: apps[i].app == APPS[i] && apps[i].Shows(dps, svcs)
  {
    var r0 := new AppReport(APPS[0]);
    var r1 := new AppReport(APPS[1]);
    var r2 := new AppReport(APPS[2]);
    apps := [r0, r1, r2];
    for i := 0 to |apps|
      invariant forall k | 0 <= k < |apps| :: apps[k].app == APPS[k]
      invariant forall k | i <= k < |apps| :: apps[k].deployment == null && apps[k].service == null
      invariant forall k | 0 <= k < i :: apps[k].Shows(dps, svcs)
      invariant forall k | 0 <= k < |apps| ::
                  (apps[k].deployment != null ==> fresh(apps[k].deployment)) &&
                  (apps[k].service != null ==> fresh(apps[k].service))
    {
      FillReport(apps[i], dps, svcs);
    }
  }

  // ---------- The page's configuration list ----------

  datatype Config = Config(app: string, created: bool, dpName: string, service: bool, port: int, replicas: Option<int>)

  // A configuration refreshed from the listed objects; without a deployment it stays as it is.
  function Refresh(c: Config, dps: seq<Deployment>, svcs: seq<Service>): Config {
    var d := FirstDeployment(dps, c.app);
    if d.None? then c
    else c.(created := true, dpName := d.value.name, replicas := d.value.replicas,
            service := FirstService(svcs, c.app).Some?)
  }

  class AppConfig {
    var config: Config
    constructor (config: Config) ensures this.config == config { this.config := config; }
  }

  const PAGE_APPS := ["RSSHub", "WordPress"]

  // The first configuration of an app.
  method FindConfig(configs: seq<AppConfig>, app: string) returns (c: AppConfig)
    requires exists j | 0 <= j < |configs| :: configs[j].config.app == app
    ensures c in configs && c.config.app == app
  {
    ghost var n :| 0 <= n < |configs| && configs[n].config.app == app;
    var i := 0;
    while configs[i].config.app != app
      invariant i <= n
      decreases n - i
    {
      i := i + 1;
    }
    c := configs[i];
  }

  // The report whose deployment is labelled with that app, if any.
  method FindReport(apps: seq<AppReport>, app: string, ghost dps: seq<Deployment>, ghost svcs: seq<Service>)
    returns (r: AppReport?)
    requires |apps| == |APPS| && forall i | 0 <= i < |APPS| :: apps[i].app == APPS[i] && apps[i].Shows(dps, svcs)
    requires app in PAGE_APPS
    ensures r == null <==> FirstDeployment(dps, app).None?
    ensures r != null ==> r.app == app && r.deployment != null && r.Shows(dps, svcs)
  {
    for j := 0 to |apps|
      invariant forall k | 0 <= k < j :: apps[k].app == app ==> apps[k].deployment == null
    {
      var d := apps[j].deployment;
      if d != null && d.dp.labels["app"] == app { return apps[j]; }
    }
    assert apps[0].app == app || apps[1].app == app;
    return null;
  }

  // Object.assign of the report's fields, if there is one, onto the configuration object.
  method RefreshConfig(c: AppConfig, apps: seq<AppReport>, ghost dps: seq<Deployment>, ghost svcs: seq<Service>)
    requires |apps| == |APPS| && forall i | 0 <= i < |APPS| :: apps[i].app == APPS[i] && apps[i].Shows(dps, svcs)
    requires c.config.app in PAGE_APPS
    modifies c
    ensures c.config == Refresh(old(c.config), dps, svcs)
  {
    var r := FindReport(apps, c.config.app, dps, svcs);
    if r != null {
      c.config := c.config.(created := true, dpName := r.deployment.dp.name,
                            replicas := r.deployment.dp.replicas, service := r.service != null);
    }
  }

  // For each app of the page its configuration object is updated in place and put into the new list.
  method UpdateConfigList(configs: seq<AppConfig>, apps: seq<AppReport>, ghost dps: seq<Deployment>, ghost svcs: seq<Service>)
    returns (list: seq<AppConfig>)
    requires forall k | 0 <= k < |PAGE_APPS| :: exists j | 0 <= j < |configs| :: configs[j].config.app == PAGE_APPS[k]
    requires |apps| == |APPS| && forall i | 0 <= i < |APPS| :: apps[i].app == APPS[i] && apps[i].Shows(dps, svcs)
    modifies configs
    ensures |list| == |PAGE_APPS|
    ensures forall k | 0 <= k < |list| ::
              list[k] in configs && old(list[k].config.app) == PAGE_APPS[k]
              && list[k].config == Refresh(old(list[k].config), dps, svcs)
    ensures forall c <- configs | c !in list :: c.config == old(c.config)
  {
    ghost var j :| 0 <= j < |configs| && configs[j].config.app == PAGE_APPS[1];
    assert exists i | 0 <= i < |configs| :: configs[i].config.app == PAGE_APPS[0];
    var c0 := FindConfig(configs, PAGE_APPS[0]);
    RefreshConfig(c0, apps, dps, svcs);
    assert configs[j].config.app == PAGE_APPS[1];
    var c1 := FindConfig(configs, PAGE_APPS[1]);
    RefreshConfig(c1, apps, dps, svcs);
    list := [c0, c1];
  }

  // ---------- Install, list, refresh, uninstall ----------

  // `dps` and `svcs` list the store, in any order.
  ghost predicate Lists(s: Store, dps: seq<Deployment>, svcs: seq<Service>) {
    && (forall d :: d in dps <==> d.name in s.deployments && s.deployments[d.name] == d)
    && (forall v :: v in svcs <==> v.name in s.services && s.services[v.name] == v)
  }

  // The names the installation needs are free, and no object is labelled as this app yet.
  ghost predicate ReadyFor(s: Store, c: Config) {
    && (c.app == "RSSHub" || c.app == "WordPress")
    && c.dpName !in s.deployments
    && (c.service ==> ServiceName(c.app) !in s.services)
    && (c.app == "WordPress" ==> c.dpName != MYSQL && MYSQL !in s.deployments && ServiceName(MYSQL) !in s.services)
    && (forall n <- s.deployments :: !IsLabObject(s.deployments[n].labels, c.app))
    && (forall n <- s.services :: !IsLabObject(s.services[n].labels, c.app))
  }

  function InstallOf(c: Config): InstallRequest {
    InstallRequest(c.dpName, c.app, c.service, if c.replicas.Some? then c.replicas.value else 0, c.port)
  }

  function UninstallOf(c: Config): UninstallRequest { UninstallRequest(c.dpName, c.app, c.service) }

  lemma ServiceNamesDiffer()
    ensures ServiceName("RSSHub") == "rsshub-service"
    ensures ServiceName("WordPress") == "wordpress-service"
    ensures ServiceName(MYSQL) == "wordpress-mysql-service"
    ensures ServiceName("WordPress") != ServiceName(MYSQL)
  {
  }

  // Whatever the cluster let through: an app whose deployment is there is shown with its own deployment
  // and service, never with the MySQL helper's, and the refreshed configuration says so.
  lemma InstalledAppIsShown(s: Store, c: Config, env: Env, dps: seq<Deployment>, svcs: seq<Service>)
    requires ReadyFor(s, c) && Lists(Install(s, InstallOf(c), env).0, dps, svcs)
    requires c.dpName in Install(s, InstallOf(c), env).0.deployments
    ensures
      var req := InstallOf(c);
      var served := c.service && Install(s, req, env).1;
      && FirstDeployment(dps, c.app) == AppDeployment(req)
      && FirstService(svcs, c.app) ==
         (if served then Some(ServiceConfig(c.app, c.port, TargetPort(c.app))) else None)
      && Refresh(c, dps, svcs) == c.(created := true, service := served, replicas := Some(Int32(req.replicas)))
  {
    OnlyOwnObjects(s, c, env);
    var req := InstallOf(c);
    var t, own := Install(s, req, env).0, AppDeployment(req).value;
    var svc := ServiceConfig(c.app, c.port, TargetPort(c.app));
    assert t.deployments[c.dpName] == own && own in dps;
    if c.service && Install(s, req, env).1 { assert t.services[svc.name] == svc && svc in svcs; }
  }

  // After an installation, the only objects labelled as the app are its own deployment and service.
  lemma OnlyOwnObjects(s: Store, c: Config, env: Env)
    requires ReadyFor(s, c)
    ensures
      var (t, ok) := Install(s, InstallOf(c), env);
      var svc := ServiceConfig(c.app, c.port, TargetPort(c.app));
      && (c.dpName in t.deployments ==> Some(t.deployments[c.dpName]) == AppDeployment(InstallOf(c)))
      && (forall n <- t.deployments | IsLabObject(t.deployments[n].labels, c.app) :: n == c.dpName)
      && (c.service && ok ==> svc.name in t.services && t.services[svc.name] == svc)
      && (forall n <- t.services | IsLabObject(t.services[n].labels, c.app) :: c.service && ok && n == svc.name)
  {
    ServiceNamesDiffer();
  }

  // Install, list, refresh, uninstall: after any installation that left the deployment, successful or
  // not, uninstalling with the refreshed configuration restores the original store.
  lemma InstallListUninstall(s: Store, c: Config, env: Env, dps: seq<Deployment>, svcs: seq<Service>)
    requires ReadyFor(s, c) && Lists(Install(s, InstallOf(c), env).0, dps, svcs)
    requires c.dpName in Install(s, InstallOf(c), env).0.deployments
    ensures Uninstall(Install(s, InstallOf(c), env).0, UninstallOf(Refresh(c, dps, svcs)), AllYes) == (s, true)
  {
    InstalledAppIsShown(s, c, env, dps, svcs);
    ServiceNamesDiffer();
    var t, c' := Install(s, InstallOf(c), env).0, Refresh(c, dps, svcs);
    InstallAdds(s, c, env);
    UninstallDrops(t, c');
    DropAdded(s, t, AddedDeployments(c'), AddedServices(c'));
  }

  lemma DropAdded(s: Store, t: Store, deployments: set<string>, services: set<string>)
    requires KeepsEverything(s, t)
    requires t.deployments.Keys <= s.deployments.Keys + deployments && deployments !! s.deployments.Keys
    requires t.services.Keys <= s.services.Keys + services && services !! s.services.Keys
    ensures Store(t.deployments - deployments, t.services - services) == s
  {
    assert t.deployments - deployments == s.deployments;
    assert t.services - services == s.services;
  }

  // Without a deployment of the app the page keeps its configuration as it is.
  lemma NotInstalledKeepsConfig(s: Store, c: Config, dps: seq<Deployment>, svcs: seq<Service>)
    requires ReadyFor(s, c) && Lists(s, dps, svcs)
    ensures Refresh(c, dps, svcs) == c
  {
  }

  // A successful installation leaves the deployment, so the above applies to it.
  lemma SuccessLeavesDeployment(s: Store, c: Config, env: Env)
    requires ReadyFor(s, c)
    ensures Install(s, InstallOf(c), env).1 ==> c.dpName in Install(s, InstallOf(c), env).0.deployments
    ensures Install(s, InstallOf(c), AllYes).1
  {
    ServiceNamesDiffer();
  }

  // The store after a series of failed attempts to install the same app.
  function AfterAttempts(s: Store, c: Config, envs: seq<Env>): Store {
    if envs == [] then s else Install(AfterAttempts(s, c, envs[..|envs| - 1]), InstallOf(c), envs[|envs| - 1]).0
  }

  // An error whose compensating delete went through leaves nothing but MySQL helper objects, which a
  // later attempt accepts as they are.
  ghost predicate OnlyHelpersAdded(s: Store, t: Store, c: Config) {
    && (t.deployments == s.deployments ||
        (c.app == "WordPress" && t.deployments == s.deployments[MYSQL := MysqlDeployment()]))
    && (t.services == s.services ||
        (c.app == "WordPress" && t.services == s.services[ServiceName(MYSQL) := ServiceConfig(MYSQL, 3306, 3306)]))
  }

  lemma FailedAttemptAddsHelpers(s: Store, t: Store, c: Config, env: Env)
    requires ReadyFor(s, c) && OnlyHelpersAdded(s, t, c)
    requires !Install(t, InstallOf(c), env).1 && env.undo
    ensures OnlyHelpersAdded(s, Install(t, InstallOf(c), env).0, c)
  {
    ServiceNamesDiffer();
    var p, u := Prepared(t, InstallOf(c), env), Install(t, InstallOf(c), env).0;
    assert OnlyHelpersAdded(s, p, c);
    assert u.deployments == p.deployments;
  }

  // Retrying converges: after any number of such failures, an attempt that is let through ends in the
  // same store as if it had been the first.
  lemma {:induction false} RetriesConverge(s: Store, c: Config, envs: seq<Env>)
    requires ReadyFor(s, c)
    requires forall n | 0 <= n < |envs| ::
               envs[n].undo && !Install(AfterAttempts(s, c, envs[..n]), InstallOf(c), envs[n]).1
    ensures OnlyHelpersAdded(s, AfterAttempts(s, c, envs), c)
    ensures Install(AfterAttempts(s, c, envs), InstallOf(c), AllYes) == Install(s, InstallOf(c), AllYes)
    decreases |envs|
  {
    if envs != [] {
      var n := |envs| - 1;
      forall k | 0 <= k < n ensures envs[..n][..k] == envs[..k] {}
      RetriesConverge(s, c, envs[..n]);
      FailedAttemptAddsHelpers(s, AfterAttempts(s, c, envs[..n]), c, envs[n]);
    }
    HelpersDoNotMatter(s, AfterAttempts(s, c, envs), c);
  }

  lemma HelpersDoNotMatter(s: Store, t: Store, c: Config)
    requires ReadyFor(s, c) && OnlyHelpersAdded(s, t, c)
    ensures Install(t, InstallOf(c), AllYes) == Install(s, InstallOf(c), AllYes)
  {
    ServiceNamesDiffer();
    assert Prepared(t, InstallOf(c), AllYes).deployments == Prepared(s, InstallOf(c), AllYes).deployments;
    assert Prepared(t, InstallOf(c), AllYes).services == Prepared(s, InstallOf(c), AllYes).services;
  }

  // The objects an installation may add.
  function AddedDeployments(c: Config): set<string> {
    {c.dpName} + (if c.app == "WordPress" then {MYSQL} else {})
  }

  function AddedServices(c: Config): set<string> {
    (if c.service then {ServiceName(c.app)} else {}) + (if c.app == "WordPress" then {ServiceName(MYSQL)} else {})
  }

  // An installation adds nothing but its own objects.
  lemma InstallAdds(s: Store, c: Config, env: Env)
    requires ReadyFor(s, c)
    ensures
      var (t, ok) := Install(s, InstallOf(c), env);
      && KeepsEverything(s, t)
      && t.deployments.Keys <= s.deployments.Keys + AddedDeployments(c)
      && t.services.Keys <= s.services.Keys + AddedServices(c.(service := c.service && ok))
      && (c.service && ok ==> ServiceName(c.app) in t.services)
  {
    ServiceNamesDiffer();
  }

  lemma UninstallDrops(t: Store, c: Config)
    requires c.app == "RSSHub" || c.app == "WordPress"
    requires c.app == "WordPress" ==> c.dpName != MYSQL
    requires c.dpName in t.deployments && (c.service ==> ServiceName(c.app) in t.services)
    ensures Uninstall(t, UninstallOf(c), AllYes) ==
            (Store(t.deployments - AddedDeployments(c), t.services - AddedServices(c)), true)
  {
    ServiceNamesDiffer();
    var u := Uninstall(t, UninstallOf(c), AllYes).0;
    assert u.deployments == t.deployments - AddedDeployments(c);
    assert u.services == t.services - AddedServices(c);
  }
}
