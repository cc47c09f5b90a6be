/**
  The front controller of Core.php: route() turns a request URI into a
  controller name, an action name and positional parameters, checks them
  against the registered controller classes and either fails with one of two
  messages or instantiates the controller and invokes the action; loadClass()
  maps a namespaced class name to the PHP file that defines it.
 */
module Core {
  import opened Options
  import opened PhpString
  import opened PhpArray

  /** The two configuration values route() reads: 'defaultController' and 'defaultAction'. */
  datatype Config = Config(defaultController: string, defaultAction: string)

  /** The resolved route: controller name, action name and the parameters in order. */
  datatype Resolved = Resolved(controllerName: string, actionName: string, params: seq<string>)

  /**
    The controller classes the process can load, by fully qualified name, each
    with the names of its methods: class_exists and method_exists are
    membership tests on it.
   */
  type Registry = map<string, set<string>>

  /** How route() ends: one of the two exit() messages, or the constructor call and action invocation. */
  datatype Dispatch =
    | ControllerNotFound(message: string)
    | ActionNotFound(message: string)
    | Invoke(className: string, ctorArgs: seq<string>, action: string, params: seq<string>)

  /** The namespace every controller class lives in. */
  const ControllerNamespace: string := "app\\controllers\\"

  /** The class a controller name stands for: app\controllers\<Name>Controller. */
  function ControllerClass(controllerName: string): (cls: string)
    ensures |cls| == |ControllerNamespace| + |controllerName| + |"Controller"|
    ensures cls[..|ControllerNamespace|] == ControllerNamespace
    ensures cls[|ControllerNamespace|..|ControllerNamespace| + |controllerName|] == controllerName
    ensures cls[|cls| - |"Controller"|..] == "Controller"
  {
    ControllerNamespace + controllerName + "Controller"
  }

  /** The request URI with everything from the first '?' on cut off. */
  function BeforeQuery(url: string): (r: string)
    ensures '?' !in r
    ensures r <= url
    ensures '?' !in url ==> r == url
    ensures '?' in url ==> |r| < |url| && url[|r|] == '?'
  {
    match StrPos(url, '?')
    case None => url
    case Some(p) => url[..p]
  }

  /** The normalised path: query cut off, then every leading and trailing '/' trimmed. */
  function RoutePath(url: string): (path: string)
    ensures '?' !in path
    ensures path == [] || (path[0] != '/' && path[|path| - 1] != '/')
  {
    TrimKeepsOut(BeforeQuery(url), '/', '?');
    Trim(BeforeQuery(url), '/')
  }

  /** The segments of a path: its '/'-separated pieces without the falsy ones ("" and "0"). */
  function Segments(path: string): (segs: seq<string>)
    ensures forall i | 0 <= i < |segs| :: Truthy(segs[i]) && '/' !in segs[i]
  {
    var pieces := Explode(path, '/');
    var segs := Kept(pieces);
    assert forall i | 0 <= i < |segs| :: segs[i] in pieces;
    segs
  }

  /**
    The route route() computes from a normalised path, as Core.php is written.
    A path of "" or "0" keeps both defaults. Otherwise the controller name is
    ucfirst of key 0 of the filtered pieces; array_filter keeps keys, so key 0
    is absent when the first piece is "0" and the name is then "" (ucfirst of
    null). array_shift then drops the first surviving segment either way, the
    next one (if any) is the action and the remaining ones are the parameters.
   */
  function ResolvePath(config: Config, path: string): (r: Resolved)
    ensures !Truthy(path) ==> r == Resolved(config.defaultController, config.defaultAction, [])
    ensures r.actionName == config.defaultAction || r.actionName in Segments(path)
    ensures forall i | 0 <= i < |r.params| :: r.params[i] in Segments(path)
    ensures |r.params| < |Segments(path)| || r.params == []
  {
    if !Truthy(path) then Resolved(config.defaultController, config.defaultAction, [])
    else
      var pieces := Explode(path, '/');
      var segs := Kept(pieces);
      var rest := if |segs| == 0 then [] else segs[1..];
      assert forall i | 0 <= i < |rest| :: rest[i] in segs;
      Resolved(if Truthy(pieces[0]) then UcFirst(pieces[0]) else "",
               if |rest| == 0 then config.defaultAction else rest[0],
               if |rest| == 0 then [] else rest[1..])
  }

  /** The route route() resolves for a request URI, as Core.php is written. */
  function ResolveAsWritten(config: Config, url: string): (r: Resolved)
    ensures !Truthy(RoutePath(url)) ==> r == Resolved(config.defaultController, config.defaultAction, [])
    ensures r.actionName == config.defaultAction || (Truthy(r.actionName) && '/' !in r.actionName)
    ensures forall i | 0 <= i < |r.params| :: Truthy(r.params[i]) && '/' !in r.params[i]
  {
    ResolvePath(config, RoutePath(url))
  }

  /**
    The route a segment list stands for, as the router is meant to work: no
    segments give both defaults; otherwise the first segment, ucfirst'ed, names
    the controller, the second (if any) the action, and the rest are the
    parameters.
   */
  function ResolveSegments(config: Config, segs: seq<string>): (r: Resolved)
    ensures segs == [] ==> r == Resolved(config.defaultController, config.defaultAction, [])
    ensures |segs| >= 1 ==> r.controllerName == UcFirst(segs[0])
    ensures |segs| >= 1 ==> |r.params| == |segs| - (if |segs| >= 2 then 2 else 1)
    ensures |segs| >= 2 ==> [segs[0], r.actionName] + r.params == segs
    ensures |segs| <= 1 ==> r.actionName == config.defaultAction && r.params == []
    ensures r.actionName == config.defaultAction || r.actionName in segs
    ensures forall i | 0 <= i < |r.params| :: r.params[i] in segs
  {
    if |segs| == 0 then Resolved(config.defaultController, config.defaultAction, [])
    else if |segs| == 1 then Resolved(UcFirst(segs[0]), config.defaultAction, [])
    else
      assert [segs[0], segs[1]] + segs[2..] == segs;
      assert forall i | 0 <= i < |segs[2..]| :: segs[2..][i] == segs[i + 2];
      Resolved(UcFirst(segs[0]), segs[1], segs[2..])
  }

  /** The route a request URI is meant to resolve to: the segments of its normalised path. */
  function ResolveIntended(config: Config, url: string): (r: Resolved)
    ensures Segments(RoutePath(url)) == [] ==> r == Resolved(config.defaultController, config.defaultAction, [])
    ensures r.actionName == config.defaultAction || (Truthy(r.actionName) && '/' !in r.actionName)
    ensures forall i | 0 <= i < |r.params| :: Truthy(r.params[i]) && '/' !in r.params[i]
  {
    ResolveSegments(config, Segments(RoutePath(url)))
  }

  /**
    The steps route() takes on a truthy path (explode, array_filter keeping
    keys, a read of key 0, two array_shift calls that renumber) compute the
    route ResolvePath states in terms of segments.
   */
  lemma KeyedArraySteps(config: Config, path: string)
    requires Truthy(path)
    ensures var pieces := Explode(path, '/');
            var filtered := ArrayFilter(List(pieces));
            var first := Lookup(filtered, 0);
            var once := ArrayShift(filtered);
            var twice := ArrayShift(once);
            ResolvePath(config, path) ==
              Resolved(UcFirst(if first.Some? then first.value else ""),
                       if |once| > 0 then Values(once)[0] else config.defaultAction,
                       if |twice| > 0 then Values(twice) else [])
  {
    FilteredListKeyZero(Explode(path, '/'));
  }

  /**
    Core::route(), with $_SERVER['REQUEST_URI'] passed in as requestUri and
    the configuration and the loadable controller classes as parameters. The
    two exit() calls become the ControllerNotFound and ActionNotFound results.
   */
  method Route(config: Config, registry: Registry, requestUri: string) returns (d: Dispatch)
    ensures var route := ResolveAsWritten(config, requestUri);
            var cls := ControllerClass(route.controllerName);
            cls !in registry ==> d == ControllerNotFound(cls + " Controller Not Exist!")
    ensures var route := ResolveAsWritten(config, requestUri);
            var cls := ControllerClass(route.controllerName);
            cls in registry && route.actionName !in registry[cls] ==>
              d == ActionNotFound(route.actionName + " Action Not Exist!")
    ensures var route := ResolveAsWritten(config, requestUri);
            var cls := ControllerClass(route.controllerName);
            cls in registry && route.actionName in registry[cls] ==>
              d == Invoke(cls, [route.controllerName, route.actionName], route.actionName, route.params)
  {
    var controllerName := config.defaultController;
    var actionName := config.defaultAction;
    var param: seq<string> := [];

    var url := requestUri;
    var position := StrPos(url, '?');
    url := if position.None? then url else url[..position.value];
    url := Trim(url, '/');
    assert url == RoutePath(requestUri);

    if Truthy(url) {
      var pieces := Explode(url, '/');
      var urlArray := List(pieces);
      urlArray := ArrayFilter(urlArray);
      var first := Lookup(urlArray, 0);
      // a missing key reads as null, which ucfirst() turns into ""
      controllerName := UcFirst(if first.Some? then first.value else "");

      urlArray := ArrayShift(urlArray);
      if |urlArray| > 0 {
        LookupFirstOfList(urlArray);
        actionName := Lookup(urlArray, 0).value;
      }

      urlArray := ArrayShift(urlArray);
      param := if |urlArray| > 0 then Values(urlArray) else [];
      KeyedArraySteps(config, url);
    }
    ghost var route := Resolved(controllerName, actionName, param);
    assert route == ResolveAsWritten(config, requestUri);

    var controller := ControllerClass(controllerName);
    if controller !in registry {
      return ControllerNotFound(controller + " Controller Not Exist!");
    }
    if actionName !in registry[controller] {
      return ActionNotFound(actionName + " Action Not Exist!");
    }
    d := Invoke(controller, [controllerName, actionName], actionName, param);
  }

  /** The namespace separator, and the separator used in file paths. */
  const NamespaceSeparator: char := '\\'
  const PathSeparator: char := '/'

  /** The file loadClass() looks for: appPath, the name with every '\' made '/', then ".php". */
  function ClassFile(appPath: string, className: string): (file: string)
    ensures |file| == |appPath| + |className| + 4
    ensures file[..|appPath|] == appPath
    ensures file[|file| - 4..] == ".php"
    ensures forall k | 0 <= k < |className| ::
      file[|appPath| + k] == (if className[k] == NamespaceSeparator then PathSeparator else className[k])
  {
    appPath + ReplaceChar(className, NamespaceSeparator, PathSeparator) + ".php"
  }

  /**
    Core::loadClass() as the autoloader runs it: the file it includes, or None
    when it includes nothing. Names without a namespace separator are ignored;
    isFile stands for PHP's is_file() on the server's file system.
   */
  function LoadClass(appPath: string, className: string, isFile: string -> bool): (included: Option<string>)
    ensures NamespaceSeparator !in className ==> included == None
    ensures NamespaceSeparator in className ==>
      included == (if isFile(ClassFile(appPath, className)) then Some(ClassFile(appPath, className)) else None)
  {
    if NamespaceSeparator in className then
      var file := ClassFile(appPath, className);
      if isFile(file) then Some(file) else None
    else
      None
  }
}
